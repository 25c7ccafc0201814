/** The bytes of a file as one sequence: the concatenation of the blocks on its chain. */
module SimpleFsContent {
  import opened Bytes

  ghost predicate BlocksOk(blocks: seq<seq<byte>>, size: nat) {
    size > 0 && forall b :: 0 <= b < |blocks| ==> |blocks[b]| == size
  }

  ghost predicate InRange(chain: seq<nat>, n: nat) {
    forall k :: 0 <= k < |chain| ==> chain[k] < n
  }

  ghost predicate Distinct(chain: seq<nat>) {
    forall j, k :: 0 <= j < k < |chain| ==> chain[j] != chain[k]
  }

  ghost function Flat(blocks: seq<seq<byte>>, chain: seq<nat>): seq<byte> {
    if chain == [] then []
    else
      var last := |chain| - 1;
      Flat(blocks, chain[..last]) + if chain[last] < |blocks| then blocks[chain[last]] else []
  }

  /** s with the bytes from q on replaced by d, if d fits there. */
  ghost function Splice(s: seq<byte>, q: nat, d: seq<byte>): seq<byte> {
    if q + |d| <= |s| then s[..q] + d + s[q + |d|..] else s
  }

  /** The byte offset at which the block at a place of a chain starts: place times size. */
  ghost function Start(place: nat, size: nat): nat {
    if place == 0 then 0 else Start(place - 1, size) + size
  }

  lemma {:induction false} StartIsProduct(place: nat, size: nat)
    ensures Start(place, size) == place * size
  {
    if place > 0 {
      StartIsProduct(place - 1, size);
    }
  }

  lemma {:induction false} StartMonotone(a: nat, b: nat, size: nat)
    requires a < b
    ensures Start(a, size) + size <= Start(b, size)
    decreases b
  {
    if a < b - 1 {
      StartMonotone(a, b - 1, size);
    }
  }

  lemma {:induction false} FlatLength(blocks: seq<seq<byte>>, chain: seq<nat>, size: nat)
    requires BlocksOk(blocks, size) && InRange(chain, |blocks|)
    ensures |Flat(blocks, chain)| == Start(|chain|, size)
  {
    if chain != [] {
      FlatLength(blocks, chain[..|chain| - 1], size);
    }
  }

  lemma FlatSnoc(blocks: seq<seq<byte>>, chain: seq<nat>, b: nat)
    requires b < |blocks|
    ensures Flat(blocks, chain + [b]) == Flat(blocks, chain) + blocks[b]
  {
    assert (chain + [b])[..|chain|] == chain;
  }

  /** The block at place k of a chain holds the file's bytes from its start offset on. */
  lemma {:induction false} FlatBlock(blocks: seq<seq<byte>>, chain: seq<nat>, size: nat, k: nat)
    requires BlocksOk(blocks, size) && InRange(chain, |blocks|) && k < |chain|
    ensures Start(k, size) + size <= |Flat(blocks, chain)|
    ensures Flat(blocks, chain)[Start(k, size)..Start(k, size) + size] == blocks[chain[k]]
  {
    var last := |chain| - 1;
    FlatLength(blocks, chain[..last], size);
    if k < last {
      FlatBlock(blocks, chain[..last], size, k);
    }
  }

  lemma {:induction false} FlatSame(blocks: seq<seq<byte>>, blocks': seq<seq<byte>>, chain: seq<nat>)
    requires InRange(chain, |blocks|) && InRange(chain, |blocks'|)
    requires forall k :: 0 <= k < |chain| ==> blocks[chain[k]] == blocks'[chain[k]]
    ensures Flat(blocks, chain) == Flat(blocks', chain)
  {
    if chain != [] {
      FlatSame(blocks, blocks', chain[..|chain| - 1]);
    }
  }

  /** Overwriting part of one block of a chain overwrites the corresponding part of the file, and only that. */
  lemma {:induction false} FlatPoke(
      blocks: seq<seq<byte>>, blocks': seq<seq<byte>>, chain: seq<nat>, size: nat, k: nat, off: nat, d: seq<byte>)
    requires BlocksOk(blocks, size) && InRange(chain, |blocks|) && Distinct(chain)
    requires k < |chain| && off + |d| <= size
    requires blocks' == blocks[chain[k] := Splice(blocks[chain[k]], off, d)]
    ensures Start(k, size) + off + |d| <= |Flat(blocks, chain)|
    ensures Flat(blocks', chain) == Splice(Flat(blocks, chain), Start(k, size) + off, d)
  {
    var last := |chain| - 1;
    var front := chain[..last];
    FlatLength(blocks, front, size);
    if k < last {
      FlatPoke(blocks, blocks', front, size, k, off, d);
      assert blocks'[chain[last]] == blocks[chain[last]];
      SpliceUnderTail(Flat(blocks, front), blocks[chain[last]], Start(k, size) + off, d);
    } else {
      FlatSame(blocks, blocks', front);
      SpliceInTail(Flat(blocks, front), blocks[chain[last]], off, d);
    }
  }

  lemma SpliceTwice(s: seq<byte>, q: nat, d: seq<byte>, e: seq<byte>)
    requires q + |d| + |e| <= |s|
    ensures Splice(Splice(s, q, d), q + |d|, e) == Splice(s, q, d + e)
  {
  }

  lemma SpliceUnderTail(s: seq<byte>, t: seq<byte>, q: nat, d: seq<byte>)
    requires q + |d| <= |s|
    ensures Splice(s + t, q, d) == Splice(s, q, d) + t
  {
  }

  lemma SpliceInTail(s: seq<byte>, t: seq<byte>, q: nat, d: seq<byte>)
    requires q + |d| <= |t|
    ensures Splice(s + t, |s| + q, d) == s + Splice(t, q, d)
  {
  }

  lemma SpliceNothing(s: seq<byte>, q: nat)
    requires q <= |s|
    ensures Splice(s, q, []) == s
  {
  }

  /** Moving n bytes on inside one block. */
  lemma OffsetAdvance(pos: nat, n: nat, size: nat)
    requires size > 0 && n <= size - pos % size
    ensures (pos + n) % size == if pos % size + n == size then 0 else pos % size + n
  {
    var a, o := pos / size, pos % size;
    assert pos == a * size + o;
    if o + n == size {
      assert pos + n == (a + 1) * size + 0;
      DivModUnique(pos + n, size, a + 1, 0);
    } else {
      DivModUnique(pos + n, size, a, o + n);
    }
  }

  lemma DivModUnique(p: nat, size: nat, a: nat, o: nat)
    requires size > 0 && p == a * size + o && o < size
    ensures p / size == a && p % size == o
  {
    var a', o' := p / size, p % size;
    assert p == a' * size + o';
    if a' < a {
      NextMultiple(a', a, size);
    } else if a < a' {
      NextMultiple(a, a', size);
    }
  }

  lemma NextMultiple(a: nat, b: nat, size: nat)
    requires a < b
    ensures a * size + size <= b * size
  {
    var k := b - a - 1;
    assert b * size == (a + 1 + k) * size == a * size + size + k * size;
    assert k * size >= 0;
  }
}
