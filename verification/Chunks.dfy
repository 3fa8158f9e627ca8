/** A byte stream cut into pieces. */
module Chunks {
  import opened Cbc

  function Flatten(chunks: seq<Bytes>): Bytes { if chunks == [] then [] else chunks[0] + Flatten(chunks[1..]) }

  lemma {:induction false} FlattenSplit(chunks: seq<Bytes>, i: nat)
    requires i <= |chunks|
    ensures Flatten(chunks) == Flatten(chunks[..i]) + Flatten(chunks[i..])
  {
    if i == 0 {
      assert chunks[..0] == [] && chunks[0..] == chunks;
    } else {
      FlattenSplit(chunks[1..], i - 1);
      assert chunks[..i][1..] == chunks[1..][..i - 1] && chunks[i..] == chunks[1..][i - 1..];
    }
  }

  lemma FlattenNext(chunks: seq<Bytes>, i: nat)
    requires i < |chunks|
    ensures Flatten(chunks[..i + 1]) == Flatten(chunks[..i]) + chunks[i]
    ensures Flatten(chunks[..i]) + chunks[i] <= Flatten(chunks)
    ensures |Flatten(chunks[..i])| + |chunks[i]| <= |Flatten(chunks)|
  {
    hide Flatten;
    FlattenSplit(chunks, i + 1);
    FlattenSplit(chunks[..i + 1], i);
    assert chunks[..i + 1][..i] == chunks[..i] && chunks[..i + 1][i..] == [chunks[i]];
    FlattenOne(chunks[i]);
  }

  lemma FlattenOne(c: Bytes)
    ensures Flatten([c]) == c
  {
    assert [c][1..] == [];
  }

  lemma FlattenNothing(chunks: seq<Bytes>)
    ensures Flatten(chunks[..0]) == []
  {
  }

  lemma FlattenAll(chunks: seq<Bytes>)
    ensures Flatten(chunks[..|chunks|]) == Flatten(chunks)
  {
    assert chunks[..|chunks|] == chunks;
  }

  // ---- sizes that pass through a 32-bit int ----

  /** A size as a 32-bit int. */
  function Int32(n: nat): int
  {
    var w := n % 0x1_0000_0000;
    if w < 0x8000_0000 then w else w - 0x1_0000_0000
  }

  function MinInt(size: nat, room: int): int { if Int32(size) < room then Int32(size) else room }

  /** Small sizes are themselves; from a large one nothing is taken, or so little that it stays large. */
  lemma MinIntIs(size: nat, room: int)
    requires 0 < size && 0 < room < 0x8000_0000
    ensures MinInt(size, room) <= size && MinInt(size, room) <= room
    ensures size < 0x8000_0000 ==> MinInt(size, room) > 0
    ensures size >= 0x8000_0000 && MinInt(size, room) > 0 ==> size - MinInt(size, room) >= 0x8000_0000
  {
  }
}
