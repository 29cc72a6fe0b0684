/**
  The Merkle check that ties a snapshot file's block-signature roots to a signed root.

  The hash is a parameter: every statement holds for every function with 32-byte output,
  and no statement assumes that it is injective.
 */
module SnapshotMerkle {
  import opened Basics
  import opened Hex

  type Hash = h: Bytes -> Bytes | forall m: Bytes :: |h(m)| == 32 witness (m: Bytes) => seq(32, _ => 0)

  // ---------- the tree, top down ----------

  ghost predicate IsPowerOfTwo(k: nat) {
    k == 1 || (k > 1 && k % 2 == 0 && IsPowerOfTwo(k / 2))
  }

  /** The largest power of two below n. */
  ghost function Split(n: nat): (k: nat)
    requires n > 1
    ensures IsPowerOfTwo(k) && k < n <= 2 * k
  {
    if n == 2 then 1 else 2 * Split((n + 1) / 2)
  }

  lemma {:induction false} SplitIsTheOnlyOne(n: nat, k: nat)
    requires n > 1 && IsPowerOfTwo(k) && k < n <= 2 * k
    ensures k == Split(n)
  {
    if n > 2 {
      SplitIsTheOnlyOne((n + 1) / 2, k / 2);
    }
  }

  /** The root over node hashes: split below the largest power of two, hash the two subroots. */
  ghost function TreeRoot(h: Hash, nodes: seq<Bytes>): (r: Bytes)
    requires nodes != []
  {
    if |nodes| == 1 then nodes[0]
    else
      var k := Split(|nodes|);
      h(TreeRoot(h, nodes[..k]) + TreeRoot(h, nodes[k..]))
  }

  function Leaves(h: Hash, roots: seq<Bytes>): (hs: seq<Bytes>)
    ensures |hs| == |roots|
    ensures forall i | 0 <= i < |hs| :: hs[i] == h(roots[i])
  {
    seq(|roots|, i requires 0 <= i < |roots| => h(roots[i]))
  }

  /** The Merkle root of a non-empty list; the code returns nil for the empty one. */
  ghost function MerkleRoot(h: Hash, roots: seq<Bytes>): Bytes {
    if roots == [] then [] else TreeRoot(h, Leaves(h, roots))
  }

  /** The roots of one, two and three leaves. */
  lemma SmallTrees(h: Hash, a: Bytes, b: Bytes, c: Bytes)
    ensures MerkleRoot(h, []) == [] && MerkleRoot(h, [a]) == h(a) && MerkleRoot(h, [a, b]) == h(h(a) + h(b))
    ensures MerkleRoot(h, [a, b, c]) == h(h(h(a) + h(b)) + h(c))
  {
    hide TreeRoot;
    assert Leaves(h, [a]) == [h(a)] && Leaves(h, [a, b]) == [h(a), h(b)] && Leaves(h, [a, b, c]) == [h(a), h(b), h(c)];
    OneNode(h, h(a));
    TwoNodes(h, h(a), h(b));
    ThreeNodes(h, h(a), h(b), h(c));
  }

  lemma OneNode(h: Hash, x: Bytes)
    ensures TreeRoot(h, [x]) == x
  {
  }

  lemma TwoNodes(h: Hash, x: Bytes, y: Bytes)
    ensures TreeRoot(h, [x, y]) == h(x + y)
  {
    assert [x, y][..1] == [x] && [x, y][1..] == [y];
  }

  lemma ThreeNodes(h: Hash, x: Bytes, y: Bytes, z: Bytes)
    ensures TreeRoot(h, [x, y, z]) == h(h(x + y) + z)
  {
    var nodes := [x, y, z];
    assert Split(3) == 2;
    hide Split;
    OneNode(h, z);
    TwoNodes(h, x, y);
    assert nodes[..2] == [x, y] && nodes[2..] == [z];
  }

  // ---------- the loop, level by level ----------

  /** One level: neighbours are hashed together and a last odd node is carried over. */
  ghost function NextLevel(h: Hash, nodes: seq<Bytes>): (next: seq<Bytes>)
    ensures |next| == (|nodes| + 1) / 2
    ensures forall i | 0 <= i < |next| :: next[i] == NextNode(h, nodes, i)
  {
    seq((|nodes| + 1) / 2, i requires 0 <= 2 * i < |nodes| => NextNode(h, nodes, i))
  }

  ghost function NextNode(h: Hash, nodes: seq<Bytes>, i: nat): Bytes
    requires 2 * i < |nodes|
  {
    if 2 * i + 1 < |nodes| then h(nodes[2 * i] + nodes[2 * i + 1]) else nodes[2 * i]
  }

  lemma LeftNode(h: Hash, left: seq<Bytes>, right: seq<Bytes>, i: nat)
    requires 2 * i + 1 < |left|
    ensures NextNode(h, left + right, i) == NextNode(h, left, i)
  {
    var all, j := left + right, 2 * i;
    assert all[j] == left[j] && all[j + 1] == left[j + 1];
  }

  lemma RightNode(h: Hash, left: seq<Bytes>, right: seq<Bytes>, n: nat, k: nat)
    requires |left| == 2 * n && 2 * k < |right|
    ensures NextNode(h, left + right, n + k) == NextNode(h, right, k)
  {
    var all, j := left + right, 2 * (n + k);
    assert all[j] == right[2 * k];
    if j + 1 < |all| { assert all[j + 1] == right[2 * k + 1]; }
  }

  lemma NextNodeOfConcat(h: Hash, left: seq<Bytes>, right: seq<Bytes>, n: nat, i: nat)
    requires |left| == 2 * n && 2 * i < |left| + |right|
    ensures NextNode(h, left + right, i) == if i < n then NextNode(h, left, i) else NextNode(h, right, i - n)
  {
    hide NextNode;
    if i < n {
      LeftNode(h, left, right, i);
    } else {
      RightNode(h, left, right, n, i - n);
    }
  }

  lemma NextLevelOfConcat(h: Hash, left: seq<Bytes>, right: seq<Bytes>, n: nat)
    requires |left| == 2 * n
    ensures NextLevel(h, left + right) == NextLevel(h, left) + NextLevel(h, right)
  {
    var l, r, all := NextLevel(h, left), NextLevel(h, right), NextLevel(h, left + right);
    assert |l| == n && |all| == n + |r|;
    forall i | 0 <= i < |all| ensures all[i] == (l + r)[i] {
      NextNodeOfConcat(h, left, right, n, i);
    }
  }

  lemma NextLevelLengths(h: Hash, nodes: seq<Bytes>)
    requires forall i | 0 <= i < |nodes| :: |nodes[i]| == 32
    ensures forall i | 0 <= i < |NextLevel(h, nodes)| :: |NextLevel(h, nodes)[i]| == 32
  {
  }

  lemma SplitIsEven(n: nat)
    requires n > 2
    ensures Split(n) % 2 == 0 && Split((n + 1) / 2) == Split(n) / 2
  {
  }

  /** Replacing a level by the next one does not change the root. */
  lemma {:induction false} NextLevelKeepsRoot(h: Hash, nodes: seq<Bytes>)
    requires nodes != []
    ensures TreeRoot(h, NextLevel(h, nodes)) == TreeRoot(h, nodes)
    decreases |nodes|
  {
    if |nodes| == 2 {
      assert nodes[..1] == [nodes[0]] && nodes[1..] == [nodes[1]];
    } else if |nodes| > 2 {
      var k := Split(|nodes|);
      SplitIsEven(|nodes|);
      var left, right := nodes[..k], nodes[k..];
      assert nodes == left + right;
      NextLevelOfConcat(h, left, right, k / 2);
      var next := NextLevel(h, nodes);
      assert next[..k / 2] == NextLevel(h, left) && next[k / 2..] == NextLevel(h, right);
      NextLevelKeepsRoot(h, left);
      NextLevelKeepsRoot(h, right);
    }
  }

  function CeilLog2(n: nat): (r: nat)
    requires n > 0
    ensures Power2(r) >= n
    ensures r > 0 ==> Power2(r - 1) < n
  {
    if n == 1 then 0 else 1 + CeilLog2((n + 1) / 2)
  }

  function Power2(r: nat): (p: nat)
    ensures p > 0
  {
    if r == 0 then 1 else 2 * Power2(r - 1)
  }

  /** copy(combined[offset:], hash) for a 32-byte hash. */
  method CopyInto(combined: array<Byte>, offset: nat, hash: Bytes)
    requires |hash| == 32 && offset + 32 <= combined.Length
    modifies combined
    ensures combined[offset..offset + 32] == hash
    ensures combined[..offset] == old(combined[..offset]) && combined[offset + 32..] == old(combined[offset + 32..])
  {
    for k := 0 to 32
      invariant combined[offset..offset + k] == hash[..k]
      invariant combined[..offset] == old(combined[..offset])
      invariant combined[offset + 32..] == old(combined[offset + 32..])
    {
      combined[offset + k] := hash[k];
      assert hash[..k + 1] == hash[..k] + [hash[k]];
    }
  }

  /** The two copies into the shared 64-byte buffer and the hash of the whole buffer. */
  method HashPair(h: Hash, combined: array<Byte>, left: Bytes, right: Bytes) returns (hash: Bytes)
    requires combined.Length == 64 && |left| == 32 && |right| == 32
    modifies combined
    ensures combined[..] == left + right && hash == h(left + right)
  {
    CopyInto(combined, 0, left);
    assert combined[..32] == left;
    CopyInto(combined, 32, right);
    assert combined[..] == combined[..32] + combined[32..64];
    hash := h(combined[..]);
  }

  /** The inner loop: one level of the tree, through the shared buffer. */
  method HashLevel(h: Hash, combined: array<Byte>, hashes: seq<Bytes>) returns (newHashes: seq<Bytes>)
    requires combined.Length == 64 && forall i | 0 <= i < |hashes| :: |hashes[i]| == 32
    modifies combined
    ensures newHashes == NextLevel(h, hashes)
  {
    newHashes := [];
    var i := 0;
    while i < |hashes|
      invariant i == 2 * |newHashes| && |newHashes| <= (|hashes| + 1) / 2
      invariant forall j | 0 <= j < |newHashes| :: newHashes[j] == NextNode(h, hashes, j)
      decreases |hashes| - i
    {
      ghost var n := |newHashes|;
      if i + 1 < |hashes| {
        var hash := HashPair(h, combined, hashes[i], hashes[i + 1]);
        newHashes := newHashes + [hash];
      } else {
        newHashes := newHashes + [hashes[i]];
      }
      assert newHashes[n] == NextNode(h, hashes, n);
      i := i + 2;
    }
  }

  method ComputeSnapshotMerkleRoot(h: Hash, blockSigMerkleRoots: seq<Bytes>) returns (root: Bytes, ghost rounds: nat)
    ensures root == MerkleRoot(h, blockSigMerkleRoots)
    ensures blockSigMerkleRoots != [] ==> |root| == 32 && rounds == CeilLog2(|blockSigMerkleRoots|)
  {
    rounds := 0;
    if |blockSigMerkleRoots| == 0 {
      return [], rounds;
    }
    var hashes := Leaves(h, blockSigMerkleRoots);
    var combined := new Byte[64](_ => 0);
    while |hashes| > 1
      invariant hashes != [] && forall i | 0 <= i < |hashes| :: |hashes[i]| == 32
      invariant TreeRoot(h, hashes) == MerkleRoot(h, blockSigMerkleRoots)
      invariant rounds + CeilLog2(|hashes|) == CeilLog2(|blockSigMerkleRoots|)
      decreases |hashes|
    {
      var newHashes := HashLevel(h, combined, hashes);
      NextLevelLengths(h, hashes);
      NextLevelKeepsRoot(h, hashes);
      hashes := newHashes;
      rounds := rounds + 1;
    }
    return hashes[0], rounds;
  }

  // ---------- what equal roots bind ----------

  /** Every byte string that computing the root of a list hashes. */
  ghost function HashInputs(h: Hash, roots: seq<Bytes>): set<Bytes>
    requires roots != []
  {
    if |roots| == 1 then {roots[0]}
    else
      var k := Split(|roots|);
      {MerkleRoot(h, roots[..k]) + MerkleRoot(h, roots[k..])}
      + HashInputs(h, roots[..k]) + HashInputs(h, roots[k..])
  }

  /** The input of the last hash. */
  ghost function TopInput(h: Hash, roots: seq<Bytes>): Bytes
    requires roots != []
  {
    if |roots| == 1 then roots[0]
    else MerkleRoot(h, roots[..Split(|roots|)]) + MerkleRoot(h, roots[Split(|roots|)..])
  }

  lemma RootIsHashOfTopInput(h: Hash, roots: seq<Bytes>)
    requires roots != []
    ensures MerkleRoot(h, roots) == h(TopInput(h, roots))
    ensures TopInput(h, roots) in HashInputs(h, roots)
  {
    if |roots| > 1 {
      var k := Split(|roots|);
      assert Leaves(h, roots)[..k] == Leaves(h, roots[..k]);
      assert Leaves(h, roots)[k..] == Leaves(h, roots[k..]);
    }
  }

  ghost predicate LengthsIn(roots: seq<Bytes>, lengths: iset<nat>) {
    forall i | 0 <= i < |roots| :: |roots[i]| in lengths
  }

  ghost predicate NoRootOf64Bytes(roots: seq<Bytes>) {
    forall i | 0 <= i < |roots| :: |roots[i]| != 64
  }

  ghost function LeftHalf(roots: seq<Bytes>): (half: seq<Bytes>)
    requires |roots| > 1
    ensures 0 < |half| < |roots|
  {
    roots[..Split(|roots|)]
  }

  ghost function RightHalf(roots: seq<Bytes>): (half: seq<Bytes>)
    requires |roots| > 1
    ensures 0 < |half| < |roots|
    ensures LeftHalf(roots) + half == roots
  {
    roots[Split(|roots|)..]
  }

  lemma Halves(h: Hash, roots: seq<Bytes>)
    requires |roots| > 1
    ensures NoRootOf64Bytes(roots) ==> NoRootOf64Bytes(LeftHalf(roots)) && NoRootOf64Bytes(RightHalf(roots))
    ensures HashInputs(h, LeftHalf(roots)) <= HashInputs(h, roots)
    ensures HashInputs(h, RightHalf(roots)) <= HashInputs(h, roots)
  {
    HalvesAreParts(roots);
    hide NoRootOf64Bytes, MerkleRoot;
  }

  lemma HalvesAreParts(roots: seq<Bytes>)
    requires |roots| > 1
    ensures NoRootOf64Bytes(roots) ==> NoRootOf64Bytes(LeftHalf(roots)) && NoRootOf64Bytes(RightHalf(roots))
  {
    hide Split;
    var left, right := LeftHalf(roots), RightHalf(roots);
    assert left + right == roots;
    assert forall i | 0 <= i < |left| :: left[i] == (left + right)[i];
    assert forall i | 0 <= i < |right| :: right[i] == (left + right)[|left| + i];
  }

  /** Two lists with one root: either they are the same list, or the two computations hash
      two different inputs to the same value, and here they are. */
  lemma {:induction false} ExtractCollision(h: Hash, xs: seq<Bytes>, ys: seq<Bytes>) returns (m1: Bytes, m2: Bytes)
    requires xs != [] && ys != [] && xs != ys
    requires NoRootOf64Bytes(xs) && NoRootOf64Bytes(ys)
    requires MerkleRoot(h, xs) == MerkleRoot(h, ys)
    ensures m1 in HashInputs(h, xs) && m2 in HashInputs(h, ys)
    ensures m1 != m2 && h(m1) == h(m2)
    decreases |xs|
  {
    RootIsHashOfTopInput(h, xs);
    RootIsHashOfTopInput(h, ys);
    m1, m2 := TopInput(h, xs), TopInput(h, ys);
    if m1 == m2 {
      BothAreInner(h, xs, ys);
      TopInputHalves(h, xs, ys);
      Halves(h, xs);
      Halves(h, ys);
      if LeftHalf(xs) != LeftHalf(ys) {
        m1, m2 := ExtractCollision(h, LeftHalf(xs), LeftHalf(ys));
      } else {
        m1, m2 := ExtractCollision(h, RightHalf(xs), RightHalf(ys));
      }
    }
  }

  lemma BothAreInner(h: Hash, xs: seq<Bytes>, ys: seq<Bytes>)
    requires xs != [] && ys != [] && xs != ys && NoRootOf64Bytes(xs) && NoRootOf64Bytes(ys)
    requires TopInput(h, xs) == TopInput(h, ys)
    ensures |xs| > 1 && |ys| > 1
  {
    hide TopInput;
    TopInputLength(h, xs);
    TopInputLength(h, ys);
    SingletonsEqual(xs, ys);
  }

  lemma SingletonsEqual(xs: seq<Bytes>, ys: seq<Bytes>)
    ensures |xs| == |ys| == 1 && xs[0] == ys[0] ==> xs == ys
  {
  }

  lemma TopInputLength(h: Hash, roots: seq<Bytes>)
    requires roots != []
    ensures if |roots| == 1 then TopInput(h, roots) == roots[0] else |TopInput(h, roots)| == 64
  {
    if |roots| > 1 {
      InnerInputIs64Bytes(h, roots);
    }
  }

  lemma InnerInputIs64Bytes(h: Hash, roots: seq<Bytes>)
    requires |roots| > 1
    ensures |TopInput(h, roots)| == 64
  {
    var k := Split(|roots|);
    RootIsHashOfTopInput(h, roots[..k]);
    RootIsHashOfTopInput(h, roots[k..]);
  }

  lemma TopInputHalves(h: Hash, xs: seq<Bytes>, ys: seq<Bytes>)
    requires |xs| > 1 && |ys| > 1 && TopInput(h, xs) == TopInput(h, ys)
    ensures MerkleRoot(h, LeftHalf(xs)) == MerkleRoot(h, LeftHalf(ys))
    ensures MerkleRoot(h, RightHalf(xs)) == MerkleRoot(h, RightHalf(ys))
  {
    var j, k := Split(|xs|), Split(|ys|);
    RootIsHashOfTopInput(h, xs[..j]);
    RootIsHashOfTopInput(h, ys[..k]);
    assert TopInput(h, xs)[..32] == MerkleRoot(h, xs[..j]) && TopInput(h, xs)[32..] == MerkleRoot(h, xs[j..]);
    assert TopInput(h, ys)[..32] == MerkleRoot(h, ys[..k]) && TopInput(h, ys)[32..] == MerkleRoot(h, ys[k..]);
  }

  ghost predicate Collides(h: Hash, xs: seq<Bytes>, ys: seq<Bytes>)
    requires xs != [] && ys != []
  {
    exists m1, m2 | m1 in HashInputs(h, xs) && m2 in HashInputs(h, ys) :: m1 != m2 && h(m1) == h(m2)
  }

  ghost predicate BindsPair(h: Hash, xs: seq<Bytes>, ys: seq<Bytes>) {
    xs != [] && ys != [] && xs != ys && MerkleRoot(h, xs) == MerkleRoot(h, ys) ==> Collides(h, xs, ys)
  }

  /** Different lists of roots of these lengths never share a Merkle root without a collision
      among the strings that were hashed. */
  ghost predicate Binds(lengths: iset<nat>) {
    forall h: Hash, xs: seq<Bytes>, ys: seq<Bytes> | LengthsIn(xs, lengths) && LengthsIn(ys, lengths) ::
      BindsPair(h, xs, ys)
  }

  function Repeat(b: Byte, n: nat): (s: Bytes)
    ensures |s| == n && forall i | 0 <= i < n :: s[i] == b
  {
    seq(n, _ => b)
  }

  /** A hash that tells 64-byte strings with equal ends apart from everything else. */
  function ForgedDigest(m: Bytes): (digest: Bytes)
    ensures |digest| == 32
  {
    Repeat(if |m| == 64 && m[0] == m[63] then m[0] else 2, 32)
  }

  lemma HashInputsOfPair(h: Hash, a: Bytes, b: Bytes)
    ensures MerkleRoot(h, [a, b]) == h(h(a) + h(b))
    ensures HashInputs(h, [a, b]) == {h(a) + h(b), a, b}
  {
    var xs := [a, b];
    assert Split(2) == 1 && xs[..1] == [a] && xs[1..] == [b];
    RootIsHashOfTopInput(h, xs);
  }

  /** Under every hash, one 64-byte root made of two leaf hashes passes for the two leaves,
      and unless one of the leaves collides with it nothing that was hashed shows it. */
  lemma PairPassesForOneRoot(h: Hash, a: Bytes, b: Bytes)
    ensures MerkleRoot(h, [a, b]) == MerkleRoot(h, [h(a) + h(b)])
    ensures h(a) != h(h(a) + h(b)) && h(b) != h(h(a) + h(b)) ==> !Collides(h, [a, b], [h(a) + h(b)])
  {
    var c := h(a) + h(b);
    HashInputsOfPair(h, a, b);
    assert HashInputs(h, [c]) == {c};
  }

  ghost predicate AllOf64Bytes(roots: seq<Bytes>) {
    forall i | 0 <= i < |roots| :: |roots[i]| == 64
  }

  lemma LengthsInAll64(roots: seq<Bytes>, lengths: iset<nat>)
    requires AllOf64Bytes(roots) && 64 in lengths
    ensures LengthsIn(roots, lengths)
  {
    forall i | 0 <= i < |roots| ensures |roots[i]| in lengths {
      assert |roots[i]| == 64;
    }
  }

  /** Two different lists of 64-byte roots with one Merkle root and no collision to show for it. */
  lemma SixtyFourByteRootsForge() returns (h: Hash, xs: seq<Bytes>, ys: seq<Bytes>)
    ensures AllOf64Bytes(xs) && AllOf64Bytes(ys)
    ensures !BindsPair(h, xs, ys)
  {
    h := ForgedDigest;
    var a, b := Repeat(0, 64), Repeat(1, 64);
    var c := h(a) + h(b);
    assert c[0] == 0 && c[63] == 1;
    assert h(a)[0] == 0 && h(b)[0] == 1 && h(c)[0] == 2;
    PairPassesForOneRoot(h, a, b);
    xs, ys := [a, b], [c];
  }

  lemma BindsWithout64(lengths: iset<nat>)
    requires 64 !in lengths
    ensures Binds(lengths)
  {
    forall h: Hash, xs: seq<Bytes>, ys: seq<Bytes> | LengthsIn(xs, lengths) && LengthsIn(ys, lengths)
      ensures BindsPair(h, xs, ys)
    {
      if xs != [] && ys != [] && xs != ys && MerkleRoot(h, xs) == MerkleRoot(h, ys) {
        var m1, m2 := ExtractCollision(h, xs, ys);
      }
    }
  }

  lemma FailsWith64(lengths: iset<nat>)
    requires 64 in lengths
    ensures !Binds(lengths)
  {
    var h, xs, ys := SixtyFourByteRootsForge();
    LengthsInAll64(xs, lengths);
    LengthsInAll64(ys, lengths);
  }

  /** The Merkle root binds the list exactly when no root may be 64 bytes long. */
  lemma BindsExactlyWithout64(lengths: iset<nat>)
    ensures Binds(lengths) <==> 64 !in lengths
  {
    if 64 !in lengths {
      BindsWithout64(lengths);
    } else {
      FailsWith64(lengths);
    }
  }

  // ---------- the header check ----------

  datatype Header = Header(magic: string, blockSigMerkleRoots: seq<string>)

  datatype SignatureData = SignatureData(merkleRoot: string, blockSigMerkleRoots: seq<string>)

  datatype HeaderError =
    | InvalidMagic
    | NoBlockSignatures
    | DecodeRoot(index: nat)
    | MerkleRootMismatch
    | BlockSigCountMismatch
    | BlockSigRootMismatch(index: nat)

  const SNAPSHOT_MAGIC: string := "DFKV"

  ghost predicate DecodesTo(texts: seq<string>, roots: seq<Bytes>) {
    && |texts| == |roots|
    && forall i | 0 <= i < |texts| :: DecodeString(texts[i]) == Ok(roots[i])
  }

  /** What acceptance means: every root decodes, the decoded roots hash to the signed root,
      and the signature's own list, when it carries one, is the header's list letter by letter. */
  ghost predicate Accepts(h: Hash, header: Header, sig: SignatureData, roots: seq<Bytes>) {
    && DecodesTo(header.blockSigMerkleRoots, roots)
    && sig.merkleRoot == EncodeToString(MerkleRoot(h, roots))
    && (sig.blockSigMerkleRoots == [] || sig.blockSigMerkleRoots == header.blockSigMerkleRoots)
  }

  lemma DecodedRootsUnique(texts: seq<string>, roots1: seq<Bytes>, roots2: seq<Bytes>)
    requires DecodesTo(texts, roots1) && DecodesTo(texts, roots2)
    ensures roots1 == roots2
  {
    forall i | 0 <= i < |roots1| ensures roots1[i] == roots2[i] {
      assert DecodeString(texts[i]) == Ok(roots1[i]);
    }
  }

  ghost predicate FirstUndecodable(texts: seq<string>, i: nat) {
    i < |texts| && DecodeString(texts[i]).Err? && forall j | 0 <= j < i :: DecodeString(texts[j]).Ok?
  }

  /** The first loop: decode every root or name the first that does not decode. */
  method DecodeRoots(texts: seq<string>) returns (r: Result<seq<Bytes>, nat>)
    ensures r.Ok? ==> DecodesTo(texts, r.value)
    ensures r.Err? ==> FirstUndecodable(texts, r.error)
  {
    var roots := [];
    for i := 0 to |texts|
      invariant DecodesTo(texts[..i], roots)
    {
      match DecodeString(texts[i]) {
        case Err(_) => return Err(i);
        case Ok(rootBytes) => roots := roots + [rootBytes];
      }
    }
    return Ok(roots);
  }

  /** The last loop: the first index at which two lists of one length differ. */
  method FirstDifference(xs: seq<string>, ys: seq<string>) returns (d: Option<nat>)
    requires |xs| == |ys|
    ensures d == None <==> xs == ys
    ensures d.Some? ==> d.value < |xs| && xs[d.value] != ys[d.value] && xs[..d.value] == ys[..d.value]
  {
    for i := 0 to |xs|
      invariant xs[..i] == ys[..i]
    {
      if xs[i] != ys[i] {
        return Some(i);
      }
    }
    return None;
  }

  method VerifyHeaderAgainstSig(h: Hash, header: Header, sig: SignatureData)
      returns (err: Option<HeaderError>, ghost roots: seq<Bytes>)
    ensures err == None ==> Accepts(h, header, sig, roots)
    ensures err != None ==> forall r :: !Accepts(h, header, sig, r)
    ensures err.Some? && err.value.DecodeRoot? ==> FirstUndecodable(header.blockSigMerkleRoots, err.value.index)
    ensures err == Some(MerkleRootMismatch) <==>
      DecodesTo(header.blockSigMerkleRoots, roots) && sig.merkleRoot != EncodeToString(MerkleRoot(h, roots))
    ensures err == Some(BlockSigCountMismatch) <==>
      && DecodesTo(header.blockSigMerkleRoots, roots) && sig.merkleRoot == EncodeToString(MerkleRoot(h, roots))
      && sig.blockSigMerkleRoots != [] && |sig.blockSigMerkleRoots| != |header.blockSigMerkleRoots|
    ensures err.Some? ==> err.value != InvalidMagic && err.value != NoBlockSignatures
    ensures err.Some? && err.value.BlockSigRootMismatch? ==>
      && |sig.blockSigMerkleRoots| == |header.blockSigMerkleRoots| > err.value.index
      && sig.blockSigMerkleRoots[err.value.index] != header.blockSigMerkleRoots[err.value.index]
      && sig.blockSigMerkleRoots[..err.value.index] == header.blockSigMerkleRoots[..err.value.index]
  {
    var decoded := DecodeRoots(header.blockSigMerkleRoots);
    if decoded.Err? {
      return Some(DecodeRoot(decoded.error)), [];
    }
    roots := decoded.value;
    forall r | DecodesTo(header.blockSigMerkleRoots, r) ensures r == roots {
      DecodedRootsUnique(header.blockSigMerkleRoots, r, roots);
    }

    var root, _ := ComputeSnapshotMerkleRoot(h, decoded.value);
    var computedRootHex := EncodeToString(root);
    if computedRootHex != sig.merkleRoot {
      return Some(MerkleRootMismatch), roots;
    }
    if |sig.blockSigMerkleRoots| == 0 {
      return None, roots;
    }
    if |sig.blockSigMerkleRoots| != |header.blockSigMerkleRoots| {
      return Some(BlockSigCountMismatch), roots;
    }
    var difference := FirstDifference(sig.blockSigMerkleRoots, header.blockSigMerkleRoots);
    if difference.Some? {
      return Some(BlockSigRootMismatch(difference.value)), roots;
    }
    return None, roots;
  }

  /** The checks in the order an import makes them: magic, non-empty root list, then the signature data. */
  method CheckSnapshot(h: Hash, header: Header, sig: SignatureData)
      returns (err: Option<HeaderError>, ghost roots: seq<Bytes>)
    ensures err == None <==>
      && header.magic == "DFKV"
      && header.blockSigMerkleRoots != []
      && exists r :: Accepts(h, header, sig, r)
    ensures err == None ==> Accepts(h, header, sig, roots) && roots != []
    ensures err == Some(InvalidMagic) <==> header.magic != "DFKV"
    ensures err == Some(NoBlockSignatures) <==> header.magic == "DFKV" && header.blockSigMerkleRoots == []
  {
    if header.magic != SNAPSHOT_MAGIC {
      return Some(InvalidMagic), [];
    }
    if |header.blockSigMerkleRoots| == 0 {
      return Some(NoBlockSignatures), [];
    }
    err, roots := VerifyHeaderAgainstSig(h, header, sig);
  }

  /** Two headers accepted under one signature carry the same decoded roots, or the two
      verifications hashed two different inputs to the same value. */
  lemma AcceptedHeadersAgree(h: Hash, header1: Header, roots1: seq<Bytes>, header2: Header, roots2: seq<Bytes>,
      sig: SignatureData)
    requires Accepts(h, header1, sig, roots1) && Accepts(h, header2, sig, roots2)
    requires NoRootOf64Bytes(roots1) && NoRootOf64Bytes(roots2)
    ensures roots1 == roots2 || (roots1 != [] && roots2 != [] && Collides(h, roots1, roots2))
  {
    EncodeInjective(MerkleRoot(h, roots1), MerkleRoot(h, roots2));
    if roots1 != [] { RootIsHashOfTopInput(h, roots1); }
    if roots2 != [] { RootIsHashOfTopInput(h, roots2); }
    if roots1 != roots2 {
      var m1, m2 := ExtractCollision(h, roots1, roots2);
    }
  }

  /** With the signature's own list present the roots agree unconditionally. */
  lemma ListedRootsAgree(h: Hash, header1: Header, roots1: seq<Bytes>, header2: Header, roots2: seq<Bytes>,
      sig: SignatureData)
    requires Accepts(h, header1, sig, roots1) && Accepts(h, header2, sig, roots2)
    requires sig.blockSigMerkleRoots != []
    ensures roots1 == roots2
  {
    DecodedRootsUnique(header1.blockSigMerkleRoots, roots1, roots2);
  }
}
