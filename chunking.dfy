// The chunked stream of the transfer protocol: how the sender cuts a file
// into reads of at most ChunkSize bytes (handleClient, Main.py lines 52-54),
// and how the receiver reassembles what successive `recv` calls return until
// the first empty read (downloadFileUi, Main.py lines 154-158).
module Chunking {
  import opened Common

  /**
   * The successive results of `f.read(ChunkSize)` on a regular file holding
   * `s`, up to (not including) the empty read that ends the loop.
   */
  function Chunks(s: seq<byte>): seq<seq<byte>>
    decreases |s|
  {
    if |s| == 0 then []
    else
      var n := if |s| < ChunkSize then |s| else ChunkSize;
      [s[..n]] + Chunks(s[n..])
  }

  /** Every chunk holds between 1 and ChunkSize bytes; only the last may be short. */
  predicate WellChunked(chunks: seq<seq<byte>>)
  {
    && (forall i :: 0 <= i < |chunks| ==> 1 <= |chunks[i]| <= ChunkSize)
    && (forall i :: 0 <= i < |chunks| - 1 ==> |chunks[i]| == ChunkSize)
  }

  /** Sending the chunks in order puts exactly the file's bytes on the wire. */
  lemma {:induction false} ChunksReassemble(s: seq<byte>)
    ensures Flatten(Chunks(s)) == s
    decreases |s|
  {
    if |s| > 0 {
      var n := if |s| < ChunkSize then |s| else ChunkSize;
      ChunksReassemble(s[n..]);
      assert Chunks(s)[1..] == Chunks(s[n..]);
      assert s == s[..n] + s[n..];
    }
  }

  /** The sender's chunks are non-empty, bounded by ChunkSize, and full except the last. */
  lemma {:induction false} ChunksWellChunked(s: seq<byte>)
    ensures WellChunked(Chunks(s))
    decreases |s|
  {
    if |s| > 0 {
      var n := if |s| < ChunkSize then |s| else ChunkSize;
      ChunksWellChunked(s[n..]);
      var c := Chunks(s);
      assert c == [s[..n]] + Chunks(s[n..]);
      if |s| > ChunkSize {
        assert Chunks(s[n..]) != [];
      } else {
        assert Chunks(s[n..]) == [];
      }
    }
  }

  /** The number of reads is |s| divided by ChunkSize, rounded up. */
  lemma {:induction false} ChunksCount(s: seq<byte>)
    ensures |Chunks(s)| == (|s| + ChunkSize - 1) / ChunkSize
    decreases |s|
  {
    if |s| > 0 {
      var n := if |s| < ChunkSize then |s| else ChunkSize;
      ChunksCount(s[n..]);
      if |s| > ChunkSize {
        assert (|s| + ChunkSize - 1) / ChunkSize == 1 + (|s| - ChunkSize + ChunkSize - 1) / ChunkSize;
      }
    }
  }

  /** The sender emits nothing exactly when the file is empty. */
  lemma ChunksEmpty(s: seq<byte>)
    ensures Chunks(s) == [] <==> s == []
  {
  }

  /**
   * The results of successive `recv` calls up to, not including, the first
   * empty one: the chunks the receive loop writes.
   */
  function TakeUntilEmpty(arrivals: seq<seq<byte>>): (r: seq<seq<byte>>)
    ensures |r| <= |arrivals|
  {
    if arrivals == [] || arrivals[0] == [] then [] else [arrivals[0]] + TakeUntilEmpty(arrivals[1..])
  }

  /** The bytes the receiver ends up with after reading `arrivals`. */
  function Received(arrivals: seq<seq<byte>>): seq<byte>
  {
    Flatten(TakeUntilEmpty(arrivals))
  }

  /** The written chunks are a prefix of the arrivals, each non-empty, and the read after them is empty or absent. */
  lemma {:induction false} TakeUntilEmptyIsPrefix(arrivals: seq<seq<byte>>)
    ensures var t := TakeUntilEmpty(arrivals);
      && t == arrivals[..|t|]
      && (forall i :: 0 <= i < |t| ==> t[i] != [])
      && (|t| < |arrivals| ==> arrivals[|t|] == [])
  {
    if arrivals != [] && arrivals[0] != [] {
      TakeUntilEmptyIsPrefix(arrivals[1..]);
    }
  }

  /** When no read is empty until the peer closes, every read is written. */
  lemma {:induction false} ReceivedAllNonEmpty(arrivals: seq<seq<byte>>)
    requires forall i :: 0 <= i < |arrivals| ==> arrivals[i] != []
    ensures Received(arrivals) == Flatten(arrivals)
  {
    if arrivals != [] {
      ReceivedAllNonEmpty(arrivals[1..]);
    }
  }

  /** Data arriving after the first empty read is never written. */
  lemma {:induction false} ReceivedStopsAtEmpty(arrivals: seq<seq<byte>>, rest: seq<seq<byte>>)
    requires forall i :: 0 <= i < |arrivals| ==> arrivals[i] != []
    ensures Received(arrivals + [[]] + rest) == Flatten(arrivals)
  {
    if arrivals == [] {
      assert (arrivals + [[]] + rest)[0] == [];
    } else {
      assert (arrivals + [[]] + rest)[1..] == arrivals[1..] + [[]] + rest;
      ReceivedStopsAtEmpty(arrivals[1..], rest);
    }
  }

  /**
   * Chunking is transparent: if the transport hands the receiver the sender's
   * bytes in non-empty pieces of any size and then reports the close, the
   * receiver reassembles the file exactly.
   */
  lemma RoundTrip(s: seq<byte>, arrivals: seq<seq<byte>>)
    requires forall i :: 0 <= i < |arrivals| ==> arrivals[i] != []
    requires Flatten(arrivals) == Flatten(Chunks(s))
    ensures Received(arrivals) == s
  {
    ReceivedAllNonEmpty(arrivals);
    ChunksReassemble(s);
  }

  /** In particular, reading back exactly the sender's chunks gives the file. */
  lemma RoundTripSameChunks(s: seq<byte>)
    ensures Received(Chunks(s)) == s
  {
    ChunksWellChunked(s);
    RoundTrip(s, Chunks(s));
  }
}
