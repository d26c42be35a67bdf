/**
 * The sequential parts of the producer/consumer driver: pairing interleaved records by name,
 * the reorder buffer that writes chunk outputs in chunk order, and the input chunk counter.
 */
module Pc {
  import opened Base

  // ---------------------------------------------------------------- records and pairing

  /** A sequence record; only its name takes part in the logic modelled here. */
  datatype KSeq = KSeq(name: string, bases: string)

  /** How a record is distributed: as one half of a pair, or on its own. */
  datatype Piece = Pair(first: KSeq, second: KSeq) | Single(record: KSeq)

  /**
   * The interleaved-format reading of a record sequence, scanned left to right: a record and
   * the one after it form a pair when their names are equal; otherwise the record is single.
   */
  function Pairing(s: seq<KSeq>): seq<Piece>
    decreases |s|
  {
    if |s| == 0 then []
    else if |s| >= 2 && s[0].name == s[1].name then [Pair(s[0], s[1])] + Pairing(s[2..])
    else [Single(s[0])] + Pairing(s[1..])
  }

  /** The records of a piece sequence, in order. */
  function Flatten(ps: seq<Piece>): seq<KSeq>
  {
    if |ps| == 0 then []
    else (match ps[0] case Pair(a, b) => [a, b] case Single(a) => [a]) + Flatten(ps[1..])
  }

  /** The first halves of the pairs, in order. */
  function Firsts(ps: seq<Piece>): seq<KSeq>
  {
    if |ps| == 0 then [] else (if ps[0].Pair? then [ps[0].first] else []) + Firsts(ps[1..])
  }

  /** The second halves of the pairs, in order. */
  function Seconds(ps: seq<Piece>): seq<KSeq>
  {
    if |ps| == 0 then [] else (if ps[0].Pair? then [ps[0].second] else []) + Seconds(ps[1..])
  }

  /** The single records, in order. */
  function Singles(ps: seq<Piece>): seq<KSeq>
  {
    if |ps| == 0 then [] else (if ps[0].Single? then [ps[0].record] else []) + Singles(ps[1..])
  }

  /** The first record of a piece. */
  function Head(p: Piece): KSeq
  {
    if p.Pair? then p.first else p.record
  }

  /** Both halves of every pair carry the same name. */
  predicate PairsShareName(ps: seq<Piece>)
  {
    forall i :: 0 <= i < |ps| && ps[i].Pair? ==> ps[i].first.name == ps[i].second.name
  }

  /** No single record is followed by a record of the same name: every possible pair was made. */
  predicate Greedy(ps: seq<Piece>)
  {
    forall i :: 0 <= i < |ps| - 1 && ps[i].Single? ==> Head(ps[i + 1]).name != ps[i].record.name
  }

  lemma FlattenAppend(a: seq<Piece>, b: seq<Piece>)
    ensures Flatten(a + b) == Flatten(a) + Flatten(b)
    decreases |a|
  {
    if |a| > 0 {
      assert (a + b)[1..] == a[1..] + b;
      FlattenAppend(a[1..], b);
    } else {
      assert a + b == b;
    }
  }

  lemma FirstsAppend(a: seq<Piece>, b: seq<Piece>)
    ensures Firsts(a + b) == Firsts(a) + Firsts(b)
    decreases |a|
  {
    if |a| > 0 {
      assert (a + b)[1..] == a[1..] + b;
      FirstsAppend(a[1..], b);
    } else {
      assert a + b == b;
    }
  }

  lemma SecondsAppend(a: seq<Piece>, b: seq<Piece>)
    ensures Seconds(a + b) == Seconds(a) + Seconds(b)
    decreases |a|
  {
    if |a| > 0 {
      assert (a + b)[1..] == a[1..] + b;
      SecondsAppend(a[1..], b);
    } else {
      assert a + b == b;
    }
  }

  lemma SinglesAppend(a: seq<Piece>, b: seq<Piece>)
    ensures Singles(a + b) == Singles(a) + Singles(b)
    decreases |a|
  {
    if |a| > 0 {
      assert (a + b)[1..] == a[1..] + b;
      SinglesAppend(a[1..], b);
    } else {
      assert a + b == b;
    }
  }

  lemma SplitAppend(a: seq<Piece>, b: seq<Piece>)
    ensures Firsts(a + b) == Firsts(a) + Firsts(b)
    ensures Seconds(a + b) == Seconds(a) + Seconds(b)
    ensures Singles(a + b) == Singles(a) + Singles(b)
  {
    FirstsAppend(a, b);
    SecondsAppend(a, b);
    SinglesAppend(a, b);
  }

  /** Pairing keeps every record, in input order. */
  lemma {:induction false} PairingFlattens(s: seq<KSeq>)
    ensures Flatten(Pairing(s)) == s
    decreases |s|
  {
    if |s| >= 2 && s[0].name == s[1].name {
      PairingFlattens(s[2..]);
      assert s == [s[0], s[1]] + s[2..];
    } else if |s| > 0 {
      PairingFlattens(s[1..]);
      assert s == [s[0]] + s[1..];
    }
  }

  /** Pairs are made only of records with equal names, and no pairable neighbours are left single. */
  lemma {:induction false} PairingIsGreedyByName(s: seq<KSeq>)
    ensures PairsShareName(Pairing(s)) && Greedy(Pairing(s))
    ensures |s| > 0 ==> |Pairing(s)| > 0 && Head(Pairing(s)[0]) == s[0]
    decreases |s|
  {
    if |s| >= 2 && s[0].name == s[1].name {
      PairingIsGreedyByName(s[2..]);
      var ps := Pairing(s);
      assert ps[1..] == Pairing(s[2..]);
    } else if |s| > 0 {
      PairingIsGreedyByName(s[1..]);
      var ps := Pairing(s);
      assert ps[1..] == Pairing(s[1..]);
      assert |s| >= 2 ==> Head(ps[1]) == s[1];
    }
  }

  /** The three outputs together hold every record once; the two pair outputs are aligned by name. */
  lemma {:induction false} SplitCounts(ps: seq<Piece>)
    requires PairsShareName(ps)
    ensures |Firsts(ps)| == |Seconds(ps)|
    ensures |Firsts(ps)| + |Seconds(ps)| + |Singles(ps)| == |Flatten(ps)|
    ensures forall i :: 0 <= i < |Firsts(ps)| ==> Firsts(ps)[i].name == Seconds(ps)[i].name
    decreases |ps|
  {
    if |ps| > 0 {
      assert PairsShareName(ps[1..]) by {
        forall i | 0 <= i < |ps[1..]| && ps[1..][i].Pair?
          ensures ps[1..][i].first.name == ps[1..][i].second.name
        {
          assert ps[1..][i] == ps[i + 1];
        }
      }
      SplitCounts(ps[1..]);
    }
  }

  /** The split of a pairing holds as many first halves as second halves and every record once. */
  lemma PairingCounts(s: seq<KSeq>)
    ensures |Firsts(Pairing(s))| == |Seconds(Pairing(s))|
    ensures |Firsts(Pairing(s))| + |Seconds(Pairing(s))| + |Singles(Pairing(s))| == |s|
  {
    PairingFlattens(s);
    PairingIsGreedyByName(s);
    SplitCounts(Pairing(s));
  }

  // ---------------------------------------------------------------- distribute_interleaved

  /** A pending look-ahead record, as a sequence of zero or one records. */
  function Pending(lookahead: Option<KSeq>): (r: seq<KSeq>)
    ensures |r| <= 1
    ensures lookahead.Some? <==> |r| == 1
    ensures lookahead.Some? ==> r[0] == lookahead.value
  {
    if lookahead.Some? then [lookahead.value] else []
  }

  lemma PairingStep(s: seq<KSeq>, i: nat)
    requires i < |s|
    ensures i + 1 < |s| && s[i].name == s[i + 1].name ==> Pairing(s[i..]) == [Pair(s[i], s[i + 1])] + Pairing(s[i + 2..])
    ensures !(i + 1 < |s| && s[i].name == s[i + 1].name) ==> Pairing(s[i..]) == [Single(s[i])] + Pairing(s[i + 1..])
  {
    assert s[i..][1..] == s[i + 1..];
    if i + 1 < |s| {
      assert s[i..][2..] == s[i + 2..];
    }
  }

  /** One step of the scan that makes a pair: the pieces so far grow by it, and only the pair outputs grow. */
  lemma PairStep(records: seq<KSeq>, i: nat, done: seq<Piece>)
    requires i + 1 < |records| && records[i].name == records[i + 1].name
    ensures done + Pairing(records[i..]) == (done + [Pair(records[i], records[i + 1])]) + Pairing(records[i + 2..])
    ensures Firsts(done + [Pair(records[i], records[i + 1])]) == Firsts(done) + [records[i]]
    ensures Seconds(done + [Pair(records[i], records[i + 1])]) == Seconds(done) + [records[i + 1]]
    ensures Singles(done + [Pair(records[i], records[i + 1])]) == Singles(done)
  {
    var p := Pair(records[i], records[i + 1]);
    PairingStep(records, i);
    SplitAppend(done, [p]);
    assert [p][1..] == [];
  }

  /** One step of the scan that leaves a record single: only the single output grows. */
  lemma SingleStep(records: seq<KSeq>, i: nat, done: seq<Piece>)
    requires i < |records| && !(i + 1 < |records| && records[i].name == records[i + 1].name)
    ensures done + Pairing(records[i..]) == (done + [Single(records[i])]) + Pairing(records[i + 1..])
    ensures Firsts(done + [Single(records[i])]) == Firsts(done)
    ensures Seconds(done + [Single(records[i])]) == Seconds(done)
    ensures Singles(done + [Single(records[i])]) == Singles(done) + [records[i]]
  {
    var p := Single(records[i]);
    PairingStep(records, i);
    SplitAppend(done, [p]);
    assert [p][1..] == [];
  }

  /** The pending look-ahead is paired with the chunk's first record or is single. */
  lemma PairingAfterLookahead(lookahead: Option<KSeq>, records: seq<KSeq>)
    ensures lookahead.None? ==> Pairing(Pending(lookahead) + records) == Pairing(records[0..])
    ensures lookahead.Some? && |records| > 0 && lookahead.value.name == records[0].name ==>
      Pairing(Pending(lookahead) + records) == [Pair(lookahead.value, records[0])] + Pairing(records[1..])
    ensures lookahead.Some? && !(|records| > 0 && lookahead.value.name == records[0].name) ==>
      Pairing(Pending(lookahead) + records) == [Single(lookahead.value)] + Pairing(records[0..])
  {
    var all := Pending(lookahead) + records;
    assert records[0..] == records;
    if lookahead.Some? {
      assert all[1..] == records;
      if |records| > 0 {
        assert all[2..] == records[1..];
      }
    } else {
      assert all == records;
    }
  }

  /**
   * `distribute_interleaved`: a pending look-ahead record is paired with the chunk's first record
   * when the names agree and is single otherwise; then the chunk is scanned pairing equal-named
   * neighbours. The three outputs are only appended to, in the order of the interleaved reading
   * of look-ahead and chunk together. The loop runs to the end of the chunk, so the look-ahead is
   * always left empty.
   */
  method DistributeInterleaved(records: seq<KSeq>, records1: seq<KSeq>, records2: seq<KSeq>,
                               records3: seq<KSeq>, lookahead: Option<KSeq>)
    returns (firsts: seq<KSeq>, seconds: seq<KSeq>, singles: seq<KSeq>, lookahead': Option<KSeq>)
    ensures var ps := Pairing(Pending(lookahead) + records);
      && firsts == records1 + Firsts(ps)
      && seconds == records2 + Seconds(ps)
      && singles == records3 + Singles(ps)
    ensures lookahead' == None
    ensures |firsts| - |records1| == |seconds| - |records2|
    ensures (|firsts| - |records1|) + (|seconds| - |records2|) + (|singles| - |records3|)
            == |records| + |Pending(lookahead)|
  {
    ghost var all := Pending(lookahead) + records;
    ghost var done: seq<Piece> := [];
    // the records appended to each output by this call
    var f: seq<KSeq>, sc: seq<KSeq>, sg: seq<KSeq> := [], [], [];
    var i := 0;
    PairingAfterLookahead(lookahead, records);
    if lookahead.Some? {
      if |records| > 0 && lookahead.value.name == records[0].name {
        PairStep([lookahead.value, records[0]], 0, []);
        f, sc := [lookahead.value], [records[0]];
        done := [Pair(lookahead.value, records[0])];
        i := 1;
      } else {
        SingleStep([lookahead.value], 0, []);
        sg := [lookahead.value];
        done := [Single(lookahead.value)];
      }
    }
    lookahead' := None;
    while i < |records|
      invariant i <= |records|
      invariant done + Pairing(records[i..]) == Pairing(all)
      invariant f == Firsts(done) && sc == Seconds(done) && sg == Singles(done)
      decreases |records| - i
    {
      if i + 1 < |records| && records[i].name == records[i + 1].name {
        PairStep(records, i, done);
        f := f + [records[i]];
        sc := sc + [records[i + 1]];
        done := done + [Pair(records[i], records[i + 1])];
        i := i + 2;
      } else {
        SingleStep(records, i, done);
        sg := sg + [records[i]];
        done := done + [Single(records[i])];
        i := i + 1;
      }
    }
    firsts, seconds, singles := records1 + f, records2 + sc, records3 + sg;
    assert done == Pairing(all);
    PairingCounts(all);
  }

  // ---------------------------------------------------------------- records split across chunks

  /** The records of a chunk sequence, in order. */
  function ConcatChunks(chunks: seq<seq<KSeq>>): seq<KSeq>
  {
    if |chunks| == 0 then [] else chunks[0] + ConcatChunks(chunks[1..])
  }

  /**
   * Chunk after chunk, for a caller assumed to call `distribute_interleaved` once per chunk with
   * the look-ahead the previous call left (the `lookahead1` member of `InputBuffer` suggests this
   * caller, which is not part of this model), starting with no look-ahead. That look-ahead is
   * always empty. Every record is
   * distributed once, in order, but a pair whose halves lie in two chunks is never joined.
   */
  function PiecesAsWritten(chunks: seq<seq<KSeq>>): (r: seq<Piece>)
    ensures Flatten(r) == ConcatChunks(chunks)
  {
    if |chunks| == 0 then []
    else
      var ps := Pairing(Pending(None) + chunks[0]);
      assert Pending(None) + chunks[0] == chunks[0];
      PairingFlattens(chunks[0]);
      FlattenAppend(ps, PiecesAsWritten(chunks[1..]));
      ps + PiecesAsWritten(chunks[1..])
  }

  /** A chunk of one record is one single record. */
  lemma PairingOfOne(a: KSeq)
    ensures Pairing([a]) == [Single(a)]
  {
    assert [a][1..] == [];
  }

  /** Two records of one pair, read in two chunks, come out as two single records. */
  lemma SplitPairNeverJoined(a: KSeq, b: KSeq)
    requires a.name == b.name
    ensures PiecesAsWritten([[a], [b]]) == [Single(a), Single(b)]
    ensures Pairing(ConcatChunks([[a], [b]])) == [Pair(a, b)]
  {
    assert Pending(None) + [a] == [a];
    assert Pending(None) + [b] == [b];
    assert [[a], [b]][1..] == [[b]];
    assert [[b]][1..] == [];
    PairingOfOne(a);
    PairingOfOne(b);
    assert PiecesAsWritten([[b]]) == [Single(b)];
    assert ConcatChunks([[b]]) == [b];
    assert ConcatChunks([[a], [b]]) == [a, b];
    assert [a, b][2..] == [];
  }

  /**
   * The distribution step with a record held back: the chunk is scanned as before, except that
   * a last record with no successor in the chunk becomes the new look-ahead instead of being
   * emitted as single.
   */
  function Hold(s: seq<KSeq>): (r: (seq<Piece>, seq<KSeq>))
    ensures |r.1| <= 1
    decreases |s|
  {
    if |s| == 0 then ([], [])
    else if |s| == 1 then ([], s)
    else if s[0].name == s[1].name then
      var t := Hold(s[2..]);
      ([Pair(s[0], s[1])] + t.0, t.1)
    else
      var t := Hold(s[1..]);
      ([Single(s[0])] + t.0, t.1)
  }

  /** Holding back loses no record: the emitted pieces and the held record are the input, in order. */
  lemma {:induction false} HoldKeepsRecords(s: seq<KSeq>)
    ensures Flatten(Hold(s).0) + Hold(s).1 == s
    decreases |s|
  {
    if |s| >= 2 {
      var skip := if s[0].name == s[1].name then 2 else 1;
      var p := Hold(s).0[0];
      var t := Hold(s[skip..]);
      HoldKeepsRecords(s[skip..]);
      assert Hold(s).0 == [p] + t.0;
      FlattenAppend([p], t.0);
      assert Flatten([p]) == s[..skip] by {
        assert [p][1..] == [];
      }
      assert s == s[..skip] + s[skip..];
    }
  }

  /** Holding back the last record and pairing it with what follows is the same as pairing all at once. */
  lemma {:induction false} HoldThenPairing(s: seq<KSeq>, b: seq<KSeq>)
    ensures Hold(s).0 + Pairing(Hold(s).1 + b) == Pairing(s + b)
    decreases |s|
  {
    if |s| == 0 {
      assert s + b == b;
    } else if |s| == 1 {
    } else if s[0].name == s[1].name {
      HoldThenPairing(s[2..], b);
      assert (s + b)[2..] == s[2..] + b;
    } else {
      HoldThenPairing(s[1..], b);
      assert (s + b)[1..] == s[1..] + b;
    }
  }

  /**
   * Chunk after chunk with the held-back record carried into the next call; at the end of the
   * input a record still held is emitted on its own.
   */
  function CarriedPieces(pending: seq<KSeq>, chunks: seq<seq<KSeq>>): seq<Piece>
    requires |pending| <= 1
    decreases |chunks|
  {
    if |chunks| == 0 then Pairing(pending)
    else
      var t := Hold(pending + chunks[0]);
      t.0 + CarriedPieces(t.1, chunks[1..])
  }

  /** With the look-ahead carried, how the input is cut into chunks does not change the pairing. */
  lemma {:induction false} CarriedPiecesPairWhole(pending: seq<KSeq>, chunks: seq<seq<KSeq>>)
    requires |pending| <= 1
    ensures CarriedPieces(pending, chunks) == Pairing(pending + ConcatChunks(chunks))
    decreases |chunks|
  {
    if |chunks| == 0 {
      assert pending + ConcatChunks(chunks) == pending;
    } else {
      var t := Hold(pending + chunks[0]);
      var rest := ConcatChunks(chunks[1..]);
      CarriedPiecesPairWhole(t.1, chunks[1..]);
      assert CarriedPieces(pending, chunks) == t.0 + Pairing(t.1 + rest);
      HoldThenPairing(pending + chunks[0], rest);
      assert ConcatChunks(chunks) == chunks[0] + rest;
      assert pending + ConcatChunks(chunks) == (pending + chunks[0]) + rest;
    }
  }

  /** The held-back look-ahead joins the pair that the code as written splits under the same assumed caller. */
  lemma CarriedPairJoined(a: KSeq, b: KSeq)
    requires a.name == b.name
    ensures CarriedPieces([], [[a], [b]]) == [Pair(a, b)]
  {
    CarriedPiecesPairWhole([], [[a], [b]]);
    assert [[a], [b]][1..] == [[b]];
    assert [[b]][1..] == [];
    assert ConcatChunks([[b]]) == [b];
    assert [] + ConcatChunks([[a], [b]]) == [a, b];
    assert [a, b][2..] == [];
  }

  // ---------------------------------------------------------------- the output reorder buffer

  /**
   * The output side: chunk outputs waiting for their turn by chunk index, the index of the next
   * chunk to write, and everything written so far.
   */
  datatype OutputBuffer = OutputBuffer(chunks: map<nat, string>, next: nat, out: string)

  /** The buffer as constructed: nothing waiting, chunk 0 due, nothing written. */
  function NewOutputBuffer(): OutputBuffer
  {
    OutputBuffer(map[], 0, "")
  }

  /** The outputs of chunks `lo .. hi - 1`, in index order. */
  function Join(m: map<nat, string>, lo: nat, hi: nat): string
    requires forall i :: lo <= i < hi ==> i in m
    decreases hi - lo
  {
    if lo >= hi then "" else m[lo] + Join(m, lo + 1, hi)
  }

  /**
   * The write loop of `output_records`: while the due chunk is waiting, it is written, removed
   * and the next index becomes due. It stops at the first index not waiting; everything in
   * between was written in index order and nothing else was touched.
   */
  function Drain(b: OutputBuffer): (r: OutputBuffer)
    ensures r.next >= b.next && r.next !in r.chunks
    ensures forall i :: b.next <= i < r.next ==> i in b.chunks
    ensures r.out == b.out + Join(b.chunks, b.next, r.next)
    ensures forall i :: i in r.chunks <==> i in b.chunks && !(b.next <= i < r.next)
    ensures forall i :: i in r.chunks ==> r.chunks[i] == b.chunks[i]
    decreases |b.chunks|
  {
    if b.next !in b.chunks then
      b
    else
      var k := b.next;
      var m' := b.chunks - {k};
      RemoveShrinks(b.chunks, k);
      var r := Drain(OutputBuffer(m', k + 1, b.out + b.chunks[k]));
      forall i | k + 1 <= i < r.next
        ensures i in m' && i in b.chunks && m'[i] == b.chunks[i]
      {
        assert i in m';
      }
      JoinAgrees(m', b.chunks, k + 1, r.next);
      r
  }

  lemma RemoveShrinks(m: map<nat, string>, k: nat)
    requires k in m
    ensures |m - {k}| < |m|
  {
    assert m.Keys == (m - {k}).Keys + {k};
  }

  /** Joining depends only on the outputs of the chunks in range. */
  lemma {:induction false} JoinAgrees(m: map<nat, string>, m': map<nat, string>, lo: nat, hi: nat)
    requires forall i :: lo <= i < hi ==> i in m && i in m' && m[i] == m'[i]
    ensures Join(m, lo, hi) == Join(m', lo, hi)
    decreases hi - lo
  {
    if lo < hi {
      JoinAgrees(m, m', lo + 1, hi);
    }
  }

  /**
   * `output_records`: the chunk's output is stored under its index, which must not be waiting
   * already, and the write loop runs. Afterwards the due index is not waiting, it has not moved
   * back, and the output grew by the chunks from the old due index to the new one, in order.
   */
  function OutputRecords(b: OutputBuffer, chunk: string, index: nat): (r: OutputBuffer)
    requires index !in b.chunks
    ensures r.next >= b.next && r.next !in r.chunks
    ensures forall i :: i in r.chunks <==> (i in b.chunks || i == index) && !(b.next <= i < r.next)
    ensures var m := b.chunks[index := chunk];
      && (forall i :: b.next <= i < r.next ==> i in m)
      && r.out == b.out + Join(m, b.next, r.next)
    ensures b.next == index ==> r.next > index && r.out[..|b.out| + |chunk|] == b.out + chunk
    ensures b.next !in b.chunks && b.next != index ==> r.next == b.next && r.out == b.out
    ensures forall i :: i in r.chunks ==> r.chunks[i] == b.chunks[index := chunk][i]
  {
    var m := b.chunks[index := chunk];
    var r := Drain(b.(chunks := m));
    assert b.next == index ==> r.out == b.out + (chunk + Join(m, index + 1, r.next));
    r
  }

  /** The outputs of a sequence of chunks, in order. */
  function Concat(cs: seq<string>): string
  {
    if |cs| == 0 then "" else cs[0] + Concat(cs[1..])
  }

  lemma {:induction false} ConcatAppend(a: seq<string>, b: seq<string>)
    ensures Concat(a + b) == Concat(a) + Concat(b)
    decreases |a|
  {
    if |a| == 0 {
      assert a + b == b;
    } else {
      assert (a + b)[1..] == a[1..] + b;
      ConcatAppend(a[1..], b);
    }
  }

  /** Joining waiting chunks whose outputs are those of `cs` gives the concatenation of that slice. */
  lemma {:induction false} JoinOfSeq(m: map<nat, string>, cs: seq<string>, lo: nat, hi: nat)
    requires lo <= hi <= |cs|
    requires forall i :: lo <= i < hi ==> i in m && m[i] == cs[i]
    ensures Join(m, lo, hi) == Concat(cs[lo..hi])
    decreases hi - lo
  {
    if lo < hi {
      JoinOfSeq(m, cs, lo + 1, hi);
      assert cs[lo..hi][1..] == cs[lo + 1..hi];
    }
  }

  /**
   * The buffer after the chunks in `submitted` have been handed in, chunk `i` having output
   * `cs[i]`: every index below the due one was submitted, the waiting chunks are exactly the
   * submitted ones from the due index on, and the output is the concatenation of all before it.
   */
  ghost predicate Holds(b: OutputBuffer, cs: seq<string>, submitted: set<nat>)
  {
    && (forall i :: i in submitted ==> i < |cs|)
    && b.next <= |cs|
    && b.next !in b.chunks
    && (forall i :: 0 <= i < b.next ==> i in submitted)
    && (forall i :: i in b.chunks <==> i in submitted && i >= b.next)
    && (forall i :: i in b.chunks ==> i < |cs| && b.chunks[i] == cs[i])
    && b.out == Concat(cs[..b.next])
  }

  /** After handing in a chunk not submitted before, every index below the due one was submitted. */
  lemma SubmitKeepsPrefix(b: OutputBuffer, cs: seq<string>, submitted: set<nat>, index: nat)
    requires Holds(b, cs, submitted)
    requires index !in submitted && index < |cs|
    ensures index !in b.chunks && index >= b.next
    ensures var r := OutputRecords(b, cs[index], index);
      && r.next <= |cs|
      && (forall i :: 0 <= i < r.next ==> i in submitted + {index})
      && (forall i :: i in r.chunks <==> i in submitted + {index} && i >= r.next)
      && (forall i :: i in r.chunks ==> i < |cs| && r.chunks[i] == cs[i])
  {
    var m := b.chunks[index := cs[index]];
    var r := OutputRecords(b, cs[index], index);
    var s' := submitted + {index};
    assert forall i :: i in m <==> i in s' && i >= b.next;
    forall i | 0 <= i < r.next
      ensures i in s'
    {
      if i >= b.next {
        assert i in m;
      }
    }
    if r.next > b.next {
      assert r.next - 1 in s';
    }
    forall i | i in r.chunks
      ensures i < |cs| && r.chunks[i] == cs[i]
    {
      assert r.chunks[i] == m[i];
    }
  }

  /** After handing in a chunk not submitted before, the output is everything before the due index. */
  lemma SubmitWritesPrefix(b: OutputBuffer, cs: seq<string>, submitted: set<nat>, index: nat)
    requires Holds(b, cs, submitted)
    requires index !in submitted && index < |cs|
    requires OutputRecords.requires(b, cs[index], index)
    requires OutputRecords(b, cs[index], index).next <= |cs|
    ensures OutputRecords(b, cs[index], index).out == Concat(cs[..OutputRecords(b, cs[index], index).next])
  {
    var m := b.chunks[index := cs[index]];
    var r := OutputRecords(b, cs[index], index);
    assert forall i :: b.next <= i < r.next ==> i in m && m[i] == cs[i];
    JoinOfSeq(m, cs, b.next, r.next);
    ConcatAppend(cs[..b.next], cs[b.next..r.next]);
    assert cs[..b.next] + cs[b.next..r.next] == cs[..r.next];
  }

  /** Handing in a chunk not submitted before keeps the buffer in step with the submissions. */
  lemma SubmitStep(b: OutputBuffer, cs: seq<string>, submitted: set<nat>, index: nat)
    requires Holds(b, cs, submitted)
    requires index !in submitted && index < |cs|
    ensures index !in b.chunks
    ensures Holds(OutputRecords(b, cs[index], index), cs, submitted + {index})
  {
    SubmitKeepsPrefix(b, cs, submitted, index);
    SubmitWritesPrefix(b, cs, submitted, index);
  }

  /** Handing in chunks one after another, in the given order. */
  function SubmitAll(b: OutputBuffer, cs: seq<string>, submitted: set<nat>, order: seq<nat>): (r: OutputBuffer)
    requires Holds(b, cs, submitted)
    requires Distinct(order)
    requires forall j :: 0 <= j < |order| ==> order[j] < |cs| && order[j] !in submitted
    ensures Holds(r, cs, submitted + Elements(order))
    decreases |order|
  {
    if |order| == 0 then
      assert submitted + Elements(order) == submitted;
      b
    else
      SubmitStep(b, cs, submitted, order[0]);
      assert forall j :: 0 <= j < |order[1..]| ==> order[1..][j] == order[j + 1] && order[j + 1] != order[0];
      assert submitted + Elements(order) == submitted + {order[0]} + Elements(order[1..]);
      SubmitAll(OutputRecords(b, cs[order[0]], order[0]), cs, submitted + {order[0]}, order[1..])
  }

  /**
   * Chunks 0 .. n - 1 handed in once each, in any order: the output is their concatenation in
   * chunk order, nothing is left waiting and chunk n is due.
   */
  lemma SubmitPermutation(cs: seq<string>, order: seq<nat>)
    requires Distinct(order)
    requires forall j :: 0 <= j < |order| ==> order[j] < |cs|
    requires forall i :: 0 <= i < |cs| ==> i in order
    ensures SubmitAll(NewOutputBuffer(), cs, {}, order) == OutputBuffer(map[], |cs|, Concat(cs))
  {
    var r := SubmitAll(NewOutputBuffer(), cs, {}, order);
    var all := {} + Elements(order);
    DueIsFirstGap(r, cs, all, |cs|);
    assert r.chunks.Keys == {};
    assert cs[..|cs|] == cs;
  }

  /** The due index is always the first chunk index not yet handed in. */
  lemma DueIsFirstGap(b: OutputBuffer, cs: seq<string>, submitted: set<nat>, gap: nat)
    requires Holds(b, cs, submitted)
    requires gap !in submitted || gap == |cs|
    requires forall i :: 0 <= i < gap ==> i in submitted
    ensures b.next == gap
  {
  }

  lemma ConcatFour(cs: seq<string>)
    requires cs == ["a", "b", "c", "d"]
    ensures Concat(cs) == "abcd"
  {
    assert cs[1..] == ["b", "c", "d"] && cs[1..][1..] == ["c", "d"] && cs[1..][1..][1..] == ["d"];
    assert cs[1..][1..][1..][1..] == [];
    assert Concat(cs[1..][1..][1..]) == "d";
    assert Concat(cs[1..][1..]) == "c" + "d";
    assert Concat(cs[1..]) == "b" + "cd";
    assert "a" + "bcd" == "abcd";
  }

  /** Four chunks finishing in the order 2, 0, 3, 1 are written as "abcd". */
  lemma OutputOrderExample(cs: seq<string>, order: seq<nat>)
    requires cs == ["a", "b", "c", "d"] && order == [2, 0, 3, 1]
    ensures SubmitAll(NewOutputBuffer(), cs, {}, order) == OutputBuffer(map[], 4, "abcd")
  {
    assert forall i :: 0 <= i < 4 ==> i in order by {
      assert order[1] == 0 && order[3] == 1 && order[0] == 2 && order[2] == 3;
    }
    assert Distinct(order);
    SubmitPermutation(cs, order);
    ConcatFour(cs);
  }

  // ---------------------------------------------------------------- the input chunk counter

  /**
   * The input side: the chunk size, the index the next chunk gets, whether an empty chunk has
   * been read, and how far the record stream has been consumed.
   */
  datatype InputBuffer = InputBuffer(chunkSize: int, chunkIndex: nat, finished: bool, cursor: nat)

  /** The buffer as constructed over a freshly opened stream. */
  function OpenInput(chunkSize: int): InputBuffer
  {
    InputBuffer(chunkSize, 0, false, 0)
  }

  /** The record reader: the next `n` records of the stream, or as many as are left. */
  function ReadFromStream(stream: seq<KSeq>, cursor: nat, n: nat): (r: seq<KSeq>)
    requires cursor <= |stream|
    ensures |r| == Min(n, |stream| - cursor)
    ensures r == stream[cursor..cursor + |r|]
  {
    if cursor + n <= |stream| then stream[cursor..cursor + n] else stream[cursor..]
  }

  /**
   * `read_records`: a count of -1 stands for the chunk size; that many records are read; the
   * chunk gets the current index, which then moves on by one; an empty chunk marks the input as
   * finished.
   */
  function ReadRecords(b: InputBuffer, stream: seq<KSeq>, toRead: int): (r: (InputBuffer, seq<KSeq>, nat))
    requires b.cursor <= |stream|
    requires toRead >= 0 || (toRead == -1 && b.chunkSize >= 0)
    ensures r.2 == b.chunkIndex && r.0.chunkIndex == b.chunkIndex + 1
    ensures r.0.finished <==> b.finished || |r.1| == 0
    ensures |r.1| <= (if toRead == -1 then b.chunkSize else toRead)
    ensures |r.1| < (if toRead == -1 then b.chunkSize else toRead) ==> r.0.cursor == |stream|
    ensures r.0.cursor == b.cursor + |r.1| <= |stream| && r.1 == stream[b.cursor..r.0.cursor]
    ensures r.0.chunkSize == b.chunkSize
  {
    var n := if toRead == -1 then b.chunkSize else toRead;
    var records := ReadFromStream(stream, b.cursor, n);
    var index := b.chunkIndex;
    var finished := if |records| == 0 then true else b.finished;
    (InputBuffer(b.chunkSize, b.chunkIndex + 1, finished, b.cursor + |records|), records, index)
  }

  /** `rewind_reset`: the stream is rewound, the input is no longer finished and numbering restarts. */
  function RewindReset(b: InputBuffer): (r: InputBuffer)
    ensures r == OpenInput(b.chunkSize)
  {
    InputBuffer(b.chunkSize, 0, false, 0)
  }

  /**
   * Reading chunks of the default size until an empty one comes back: the non-empty chunks,
   * each with its index, and the buffer at the end.
   */
  function ReadAll(b: InputBuffer, stream: seq<KSeq>): (r: (seq<(nat, seq<KSeq>)>, InputBuffer))
    requires b.cursor <= |stream| && b.chunkSize > 0
    ensures r.1.finished && r.1.cursor == |stream| && r.1.chunkSize == b.chunkSize
    ensures r.1.chunkIndex == b.chunkIndex + |r.0| + 1
    ensures forall j :: 0 <= j < |r.0| ==> r.0[j].0 == b.chunkIndex + j && |r.0[j].1| > 0
    ensures ConcatChunks(Chunks(r.0)) == stream[b.cursor..]
    decreases |stream| - b.cursor
  {
    var t := ReadRecords(b, stream, -1);
    if |t.1| == 0 then
      assert stream[b.cursor..] == [];
      ([], t.0)
    else
      var rest := ReadAll(t.0, stream);
      assert Chunks([(t.2, t.1)] + rest.0) == [t.1] + Chunks(rest.0);
      assert ([t.1] + Chunks(rest.0))[1..] == Chunks(rest.0);
      assert stream[b.cursor..] == t.1 + stream[t.0.cursor..];
      ([(t.2, t.1)] + rest.0, rest.1)
  }

  /** The record chunks of a sequence of numbered chunks. */
  function Chunks(cs: seq<(nat, seq<KSeq>)>): (r: seq<seq<KSeq>>)
    ensures |r| == |cs| && forall j :: 0 <= j < |cs| ==> r[j] == cs[j].1
  {
    seq(|cs|, j requires 0 <= j < |cs| => cs[j].1)
  }

  /**
   * After a rewind the whole stream is read again, in chunks numbered from 0, exactly as on the
   * first pass after opening.
   */
  lemma RewindRereads(b: InputBuffer, stream: seq<KSeq>)
    requires b.chunkSize > 0
    ensures ReadAll(RewindReset(b), stream) == ReadAll(OpenInput(b.chunkSize), stream)
    ensures var r := ReadAll(RewindReset(b), stream);
      && ConcatChunks(Chunks(r.0)) == stream
      && forall j :: 0 <= j < |r.0| ==> r.0[j].0 == j
  {
    assert stream[0..] == stream;
  }
}
