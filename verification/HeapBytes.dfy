/** Block headers as they lie in memory (kernel/heap.h): sixteen bytes in front of every payload, inside
    the very bytes that are handed out. */
module HeapBytes {
  import opened Bytes
  import opened HeapBlocks

  function Word(m: seq<byte>, a: nat): nat {
    if a + 4 <= |m| then GetU32(m[a..a + 4]) else 0
  }

  function Hdr(m: seq<byte>, a: nat): Header {
    Header(Word(m, a), Word(m, a + 4), Word(m, a + 8), Word(m, a + 12))
  }

  ghost predicate FieldsFit(h: Header) {
    h.size < U32 && h.isFree < U32 && h.next < U32 && h.prev < U32
  }

  lemma WordFits(m: seq<byte>, a: nat)
    ensures Word(m, a) < U32
  {
  }

  lemma HdrFits(m: seq<byte>, a: nat)
    ensures FieldsFit(Hdr(m, a))
  {
    WordFits(m, a);
    WordFits(m, a + 4);
    WordFits(m, a + 8);
    WordFits(m, a + 12);
  }

  lemma SameWord(m: seq<byte>, m': seq<byte>, a: nat)
    requires |m| == |m'| && forall k :: a <= k < a + 4 && k < |m| ==> m'[k] == m[k]
    ensures Word(m', a) == Word(m, a)
  {
    if a + 4 <= |m| {
      assert m[a..a + 4] == m'[a..a + 4];
    }
  }

  lemma SameHdr(m: seq<byte>, m': seq<byte>, a: nat)
    requires |m| == |m'| && forall k :: a <= k < a + HEADER && k < |m| ==> m'[k] == m[k]
    ensures Hdr(m', a) == Hdr(m, a)
  {
    SameWord(m, m', a);
    SameWord(m, m', a + 4);
    SameWord(m, m', a + 8);
    SameWord(m, m', a + 12);
  }
}
