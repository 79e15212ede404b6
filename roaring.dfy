/**
 * The two-level roaring bitmap: keys are split into a chunk id (the high
 * part, key / 65536) and a remainder (key % 65536). A builder buffers the
 * remainders of each chunk in insertion order; fossilizing it turns every
 * buffer into an array container or a bitset container, and the resulting
 * chunk index answers membership by routing a key to its chunk's container.
 */
module Roaring {
  import opened Ordering
  import Bitset

  /** `1 << 16`: the number of remainders a chunk can hold. */
  const ChunkSize: nat := 65536

  /**
   * `(1 << 16) // 16`: the buffer length at which a list of 16-bit values
   * would take as much room as a bitmap of the whole chunk.
   */
  const Threshold: nat := ChunkSize / 16

  /** `divmod(x, 1 << 16)`: chunk id and remainder. */
  function Split(x: nat): (r: (nat, nat))
    ensures r.0 * ChunkSize + r.1 == x && r.1 < ChunkSize
  {
    (x / ChunkSize, x % ChunkSize)
  }

  /** The decomposition is unique: any chunk/remainder pair that rebuilds x is Split(x). */
  lemma SplitUnique(x: nat, c: nat, rem: nat)
    requires rem < ChunkSize
    ensures Split(x) == (c, rem) <==> c * ChunkSize + rem == x
  {
  }

  /**
   * A per-chunk container. The array form is the buffer exactly as it was
   * filled (neither sorted nor deduplicated); the bitset form holds 64-bit words.
   */
  datatype Container = Arr(elems: seq<nat>) | Bits(words: seq<bv64>)
  {
    /** Array form: a linear `in` scan; bitset form: a bit test. */
    predicate Contains(rem: nat)
      ensures Arr? ==> (Contains(rem) <==> exists i :: 0 <= i < |elems| && elems[i] == rem)
      ensures Bits? && Contains(rem) ==> rem / Bitset.WordBits < |words|
    {
      match this
      case Arr(elems) => rem in elems
      case Bits(words) => Bitset.Contains(words, rem)
    }
  }

  /** The container fossilize builds for one chunk buffer. */
  function MakeContainer(buf: seq<nat>): (c: Container)
    ensures c.Arr? <==> |buf| < Threshold
    ensures c.Arr? ==> c.elems == buf
    ensures forall rem :: c.Contains(rem) <==> rem in buf
  {
    if |buf| < Threshold then Arr(buf)
    else
      Bitset.SortedWords(buf);
      Bits(Bitset.Words(Sort(buf)))
  }

  /** The queryable chunk index: chunk id to container. */
  datatype RoaringBitmap = RoaringBitmap(d: map<nat, Container>)
  {
    /** False for an absent chunk; otherwise the chunk's container decides. */
    predicate Contains(x: nat)
      ensures Contains(x) ==> x / ChunkSize in d
    {
      var s := Split(x);
      s.0 in d && d[s.0].Contains(s.1)
    }
  }

  /**
   * Chunk-index query: x is a member exactly when some chunk id and
   * in-range remainder that rebuild x name a present chunk whose container
   * holds that remainder.
   */
  lemma ContainsRoutes(b: RoaringBitmap, x: nat)
    ensures b.Contains(x) <==>
      exists c: nat, rem: nat :: c in b.d && rem < ChunkSize && c * ChunkSize + rem == x && b.d[c].Contains(rem)
  {
    var s := Split(x);
    if !b.Contains(x) {
      forall c: nat, rem: nat | c in b.d && rem < ChunkSize && c * ChunkSize + rem == x
        ensures !b.d[c].Contains(rem)
      {
        SplitUnique(x, c, rem);
      }
    }
  }

  /**
   * fossilize: one container per buffered chunk, an array for a buffer
   * shorter than Threshold (duplicates counted) and a bitset otherwise.
   */
  function FossilizeChunks(chunks: map<nat, seq<nat>>): (r: RoaringBitmap)
    ensures r.d.Keys == chunks.Keys
    ensures forall c :: c in chunks ==> (r.d[c].Arr? <==> |chunks[c]| < Threshold)
    ensures forall c :: c in chunks && r.d[c].Arr? ==> r.d[c].elems == chunks[c]
    ensures forall x :: r.Contains(x) <==> Split(x).0 in chunks && Split(x).1 in chunks[Split(x).0]
  {
    RoaringBitmap(map c | c in chunks :: MakeContainer(chunks[c]))
  }

  /** The remainders of the keys of xs that fall in chunk c, in insertion order. */
  function Remainders(xs: seq<nat>, c: nat): seq<nat>
  {
    if xs == [] then []
    else
      var last := xs[|xs| - 1];
      Remainders(xs[..|xs| - 1], c) + if Split(last).0 == c then [Split(last).1] else []
  }

  /** The chunk ids of the keys of xs. */
  function ChunkIds(xs: seq<nat>): set<nat>
  {
    set x | x in xs :: Split(x).0
  }

  /** The builder's buffers after inserting the keys of xs one by one into an empty builder. */
  function Chunked(xs: seq<nat>): map<nat, seq<nat>>
  {
    map c | c in ChunkIds(xs) :: Remainders(xs, c)
  }

  /**
   * One more insert: the key's chunk gets its remainder appended (its buffer
   * created empty first when absent) and every other buffer is unchanged.
   */
  lemma {:induction false} ChunkedSnoc(xs: seq<nat>, x: nat)
    ensures
      var c, m := Split(x).0, Chunked(xs);
      Chunked(xs + [x]) == m[c := (if c in m then m[c] else []) + [Split(x).1]]
  {
    var c, m := Split(x).0, Chunked(xs);
    var ys := xs + [x];
    assert ys[..|ys| - 1] == xs;
    assert ChunkIds(ys) == ChunkIds(xs) + {c};
    assert Remainders(ys, c) == Remainders(xs, c) + [Split(x).1];
    if c !in m {
      RemaindersEmpty(xs, c);
    }
    forall c' | c' in ChunkIds(xs) && c' != c
      ensures Chunked(ys)[c'] == m[c']
    {
      assert Remainders(ys, c') == Remainders(xs, c') + [];
    }
  }

  /** A chunk that no key of xs falls in has an empty remainder list. */
  lemma {:induction false} RemaindersEmpty(xs: seq<nat>, c: nat)
    requires c !in ChunkIds(xs)
    ensures Remainders(xs, c) == []
  {
    if xs != [] {
      var prefix := xs[..|xs| - 1];
      assert ChunkIds(prefix) <= ChunkIds(xs);
      RemaindersEmpty(prefix, c);
    }
  }

  /** A key's chunk buffer holds its remainder exactly when the key was inserted. */
  lemma {:induction false} RemaindersMember(xs: seq<nat>, x: nat)
    ensures Split(x).1 in Remainders(xs, Split(x).0) <==> x in xs
  {
    if xs != [] {
      var prefix, last := xs[..|xs| - 1], xs[|xs| - 1];
      assert xs == prefix + [last];
      RemaindersMember(prefix, x);
      SplitUnique(x, Split(last).0, Split(last).1);
    }
  }

  /** Every buffered remainder lies below 65536. */
  lemma {:induction false} RemaindersInRange(xs: seq<nat>, c: nat)
    ensures forall rem :: rem in Remainders(xs, c) ==> rem < ChunkSize
  {
    if xs != [] {
      RemaindersInRange(xs[..|xs| - 1], c);
    }
  }

  /**
   * End to end: after any sequence of inserts, the fossilized index contains
   * x exactly when x was inserted, whichever form each chunk's container took.
   */
  lemma EndToEnd(xs: seq<nat>, x: nat)
    ensures FossilizeChunks(Chunked(xs)).Contains(x) <==> x in xs
  {
    var m, s := Chunked(xs), Split(x);
    var b := FossilizeChunks(m);
    assert b.Contains(x) <==> s.0 in m && s.1 in m[s.0];
    if s.0 in m {
      assert m[s.0] == Remainders(xs, s.0);
      RemaindersMember(xs, x);
    }
  }

  /** Inserting one key n times buffers its remainder n times: nothing deduplicates. */
  lemma {:induction false} RepeatedRemainders(x: nat, n: nat)
    ensures Remainders(seq(n, _ => x), Split(x).0) == seq(n, _ => Split(x).1)
  {
    if n > 0 {
      var xs := seq(n, _ => x);
      assert xs[..n - 1] == seq(n - 1, _ => x);
      RepeatedRemainders(x, n - 1);
    }
  }

  /**
   * The container form follows the raw buffer length: one key inserted n
   * times gets an array below 4096 repetitions and a bitset from 4096 on,
   * and is a member either way.
   */
  lemma RepeatedKey(x: nat, n: nat)
    requires n > 0
    ensures
      var b := FossilizeChunks(Chunked(seq(n, _ => x)));
      && Split(x).0 in b.d
      && (b.d[Split(x).0].Arr? <==> n < Threshold)
      && b.Contains(x)
  {
    var xs := seq(n, _ => x);
    assert xs[0] == x;
    assert Split(x).0 in ChunkIds(xs);
    RepeatedRemainders(x, n);
    EndToEnd(xs, x);
  }

  /** Keys 65535 and 65536 fall in neighbouring chunks and do not interfere. */
  lemma ChunkBoundary()
    ensures Split(65535) == (0, 65535) && Split(65536) == (1, 0)
    ensures FossilizeChunks(Chunked([65535])).Contains(65535)
    ensures !FossilizeChunks(Chunked([65535])).Contains(65536)
    ensures !FossilizeChunks(Chunked([65536])).Contains(65535)
  {
    EndToEnd([65535], 65535);
    EndToEnd([65535], 65536);
    EndToEnd([65536], 65535);
  }

  /** The builder: a map from chunk id to the list of remainders inserted there. */
  class RoaringBuilder {
    var chunks: map<nat, seq<nat>>
    /** The keys inserted so far, in order. */
    ghost var inserted: seq<nat>

    ghost predicate Valid()
      reads this
    {
      chunks == Chunked(inserted)
    }

    constructor ()
      ensures Valid() && inserted == [] && chunks == map[]
    {
      chunks := map[];
      inserted := [];
      new;
      assert Chunked([]) == map[];
    }

    /** Appends x's remainder to its chunk's buffer, creating the buffer first if absent. */
    method Insert(x: nat)
      requires Valid()
      modifies this
      ensures Valid() && inserted == old(inserted) + [x]
      ensures
        var c := Split(x).0;
        && chunks.Keys == old(chunks).Keys + {c}
        && chunks[c] == (if c in old(chunks) then old(chunks)[c] else []) + [Split(x).1]
        && forall c' :: c' in old(chunks) && c' != c ==> chunks[c'] == old(chunks)[c']
    {
      var s := Split(x);
      var chunk, rem := s.0, s.1;
      if chunk !in chunks {
        chunks := chunks[chunk := []];
      }
      chunks := chunks[chunk := chunks[chunk] + [rem]];
      ChunkedSnoc(inserted, x);
      inserted := inserted + [x];
    }

    /** Builds the chunk index from the buffers; the builder itself is left as it is. */
    function Fossilize(): (r: RoaringBitmap)
      requires Valid()
      reads this
      ensures r.d.Keys == chunks.Keys
      ensures forall c :: c in chunks ==> (r.d[c].Arr? <==> |chunks[c]| < Threshold)
      ensures forall x :: r.Contains(x) <==> x in inserted
    {
      assert forall x :: FossilizeChunks(Chunked(inserted)).Contains(x) <==> x in inserted by {
        forall x ensures FossilizeChunks(Chunked(inserted)).Contains(x) <==> x in inserted {
          EndToEnd(inserted, x);
        }
      }
      FossilizeChunks(chunks)
    }
  }
}
