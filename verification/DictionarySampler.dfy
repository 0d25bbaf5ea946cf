/** Collecting fixed-length samples of an output file as its keys and values stream by. */
module DictionarySampler {
  import opened Wrappers

  newtype byte = x: int | 0 <= x < 256
  type Bytes = seq<byte>

  // 1 << kSampleLenShift
  const SAMPLE_LEN: nat := 64

  datatype Pair = Pair(key: Bytes, value: Bytes)

  /** Offsets as drawn: multiples of the sample length, in order and without repetition. */
  ghost predicate SampleOffsets(offsets: seq<nat>) {
    forall i, j :: 0 <= i < j < |offsets| ==> offsets[i] + SAMPLE_LEN <= offsets[j]
  }

  /** The file as one stream of bytes. */
  function Stream(pairs: seq<Pair>): Bytes {
    if pairs == [] then [] else Stream(pairs[..|pairs| - 1]) + pairs[|pairs| - 1].key + pairs[|pairs| - 1].value
  }

  /** One sample, clipped at the end of the stream. */
  function Sample(s: Bytes, offset: nat): Bytes {
    if offset >= |s| then [] else s[offset..Min(offset + SAMPLE_LEN, |s|)]
  }

  /** The dictionary: all samples of the whole stream, in order. */
  function Samples(s: Bytes, offsets: seq<nat>): Bytes {
    if offsets == [] then [] else Samples(s, offsets[..|offsets| - 1]) + Sample(s, offsets[|offsets| - 1])
  }

  /** Where the sampler stands after the bytes `s`: samples before `next` are complete, the rest are not. */
  ghost predicate Standing(s: Bytes, offsets: seq<nat>, next: nat) {
    && next <= |offsets|
    && (forall k :: 0 <= k < next ==> offsets[k] + SAMPLE_LEN <= |s|)
    && (next < |offsets| ==> |s| < offsets[next] + SAMPLE_LEN)
  }

  lemma {:induction false} CompleteSamplesStay(s: Bytes, more: Bytes, offsets: seq<nat>)
    requires forall k :: 0 <= k < |offsets| ==> offsets[k] + SAMPLE_LEN <= |s|
    ensures Samples(s + more, offsets) == Samples(s, offsets)
  {
    if offsets != [] {
      hide Sample, Samples;
      var n := |offsets| - 1;
      assert offsets[..n + 1] == offsets;
      CompleteSampleStays(s, more, offsets[n]);
      CompleteSamplesStay(s, more, offsets[..n]);
      SamplesStep(s, offsets, n);
      SamplesStep(s + more, offsets, n);
    }
  }

  lemma CompleteSampleStays(s: Bytes, more: Bytes, offset: nat)
    requires offset + SAMPLE_LEN <= |s|
    ensures Sample(s + more, offset) == Sample(s, offset)
  {
  }

  lemma SamplesStep(s: Bytes, offsets: seq<nat>, next: nat)
    requires next < |offsets|
    ensures Samples(s, offsets[..next + 1]) == Samples(s, offsets[..next]) + Sample(s, offsets[next])
  {
    assert offsets[..next + 1][..next] == offsets[..next];
  }

  lemma {:induction false} LateSamplesAreEmpty(s: Bytes, offsets: seq<nat>, next: nat)
    requires next <= |offsets| && forall k :: next <= k < |offsets| ==> offsets[k] >= |s|
    ensures Samples(s, offsets) == Samples(s, offsets[..next])
    decreases |offsets| - next
  {
    hide Samples;
    if next < |offsets| {
      LateSamplesAreEmpty(s, offsets, next + 1);
      SamplesStep(s, offsets, next);
    } else {
      assert offsets[..next] == offsets;
    }
  }

  /** Only the sample at `next` can be under way: everything after it starts later. */
  lemma OneSampleUnderWay(s: Bytes, offsets: seq<nat>, next: nat)
    requires SampleOffsets(offsets) && Standing(s, offsets, next)
    ensures Samples(s, offsets) ==
            Samples(s, offsets[..next]) + if next < |offsets| then Sample(s, offsets[next]) else []
  {
    if next < |offsets| {
      LateSamplesAreEmpty(s, offsets, next + 1);
      SamplesStep(s, offsets, next);
    } else {
      assert offsets[..next] == offsets;
    }
  }

  /** The part of a sample that falls into the element read after `s`. */
  lemma SampleContinues(s: Bytes, elmt: Bytes, offset: nat, from: nat, len: nat)
    requires |s| < offset + SAMPLE_LEN && offset < |s| + |elmt|
    requires from == (if offset <= |s| then 0 else offset - |s|)
    requires len == Min(offset + SAMPLE_LEN, |s| + |elmt|) - (|s| + from)
    ensures from + len <= |elmt|
    ensures Sample(s + elmt, offset) == Sample(s, offset) + elmt[from..from + len]
  {
    var all := s + elmt;
    var end := Min(offset + SAMPLE_LEN, |all|);
    if offset < |s| {
      assert all[offset..end] == s[offset..] + elmt[..len];
      assert s[offset..Min(offset + SAMPLE_LEN, |s|)] == s[offset..];
    } else {
      assert all[offset..end] == elmt[from..from + len];
    }
  }

  /** The part of the sample at `next` that the stream `s` already holds. */
  ghost function Begun(s: Bytes, offsets: seq<nat>, next: nat): Bytes {
    if next < |offsets| then Sample(s, offsets[next]) else []
  }

  ghost predicate Complete(offsets: seq<nat>, next: nat, len: nat) {
    next <= |offsets| && forall k :: 0 <= k < next ==> offsets[k] + SAMPLE_LEN <= len
  }

  lemma SamplingStarts(before: Bytes, elmt: Bytes, offsets: seq<nat>, first: nat)
    requires SampleOffsets(offsets) && Standing(before, offsets, first)
    ensures Complete(offsets, first, |before + elmt|)
    ensures first < |offsets| ==> |before| < offsets[first] + SAMPLE_LEN
    ensures Samples(before, offsets) == Samples(before + elmt, offsets[..first]) + Begun(before, offsets, first)
  {
    hide Samples, Sample;
    OneSampleUnderWay(before, offsets, first);
    CompleteSamplesStay(before, elmt, offsets[..first]);
  }

  /** A finished sample: the next one starts at or after its end, hence after `before`. */
  lemma SampleFinished(before: Bytes, offsets: seq<nat>, next: nat)
    requires SampleOffsets(offsets) && next < |offsets| && |before| < offsets[next] + SAMPLE_LEN
    ensures Begun(before, offsets, next + 1) == []
    ensures next + 1 < |offsets| ==> |before| < offsets[next + 1] + SAMPLE_LEN
  {
  }

  lemma SamplingStops(after: Bytes, offsets: seq<nat>, next: nat)
    requires SampleOffsets(offsets) && next < |offsets| && |after| < offsets[next] + SAMPLE_LEN
    ensures Samples(after, offsets) == Samples(after, offsets[..next + 1])
  {
    hide Samples, Sample;
    LateSamplesAreEmpty(after, offsets, next + 1);
  }

  lemma SamplingRests(before: Bytes, after: Bytes, offsets: seq<nat>, next: nat)
    requires SampleOffsets(offsets) && next <= |offsets| && |before| <= |after|
    requires next < |offsets| ==> |after| <= offsets[next]
    ensures Samples(after, offsets) == Samples(after, offsets[..next]) + Begun(before, offsets, next)
    ensures next < |offsets| ==> |after| < offsets[next] + SAMPLE_LEN
  {
    hide Samples;
    LateSamplesAreEmpty(after, offsets, next);
  }

  /** The loop over the samples that meet one key or value. */
  method SampleElement(elmt: Bytes, offsets: seq<nat>, first: nat, dataBegin: nat, dict: Bytes, ghost before: Bytes)
    returns (next: nat, newDict: Bytes)
    requires SampleOffsets(offsets) && Standing(before, offsets, first)
    requires dataBegin == |before| && dict == Samples(before, offsets)
    ensures Standing(before + elmt, offsets, next)
    ensures newDict == Samples(before + elmt, offsets)
  {
    hide SampleOffsets, Samples, Sample, Begun;
    ghost var after := before + elmt;
    next, newDict := first, dict;
    var dataEnd := dataBegin + |elmt|;
    SamplingStarts(before, elmt, offsets, first);
    while next < |offsets| && offsets[next] < dataEnd
      invariant Complete(offsets, next, |after|)
      invariant next < |offsets| ==> dataBegin < offsets[next] + SAMPLE_LEN
      invariant newDict == Samples(after, offsets[..next]) + Begun(before, offsets, next)
    {
      var sampleEnd := offsets[next] + SAMPLE_LEN;
      assert dataBegin < sampleEnd;
      var from := if offsets[next] <= dataBegin then 0 else offsets[next] - dataBegin;
      var len := if sampleEnd <= dataEnd then sampleEnd - (dataBegin + from) else dataEnd - (dataBegin + from);
      SampleAppended(before, elmt, offsets, next, from, len);
      newDict := newDict + elmt[from..from + len];
      if sampleEnd > dataEnd {
        SamplingStops(after, offsets, next);
        return;
      }
      SampleFinished(before, offsets, next);
      next := next + 1;
    }
    SamplingRests(before, after, offsets, next);
  }

  lemma SampleAppended(before: Bytes, elmt: Bytes, offsets: seq<nat>, next: nat, from: nat, len: nat)
    requires next < |offsets| && |before| < offsets[next] + SAMPLE_LEN && offsets[next] < |before| + |elmt|
    requires from == (if offsets[next] <= |before| then 0 else offsets[next] - |before|)
    requires len == Min(offsets[next] + SAMPLE_LEN, |before| + |elmt|) - (|before| + from)
    ensures from + len <= |elmt|
    ensures Samples(before + elmt, offsets[..next]) + Begun(before, offsets, next) + elmt[from..from + len]
         == Samples(before + elmt, offsets[..next + 1])
  {
    hide Samples, Sample;
    SampleContinues(before, elmt, offsets[next], from, len);
    SamplesStep(before + elmt, offsets, next);
    assert Samples(before + elmt, offsets[..next]) + Begun(before, offsets, next) + elmt[from..from + len]
        == Samples(before + elmt, offsets[..next]) + (Begun(before, offsets, next) + elmt[from..from + len]);
  }

  /** The dictionary gathered over one output file is the concatenation of its samples. */
  method BuildDictionary(pairs: seq<Pair>, offsets: seq<nat>) returns (dict: Bytes)
    requires SampleOffsets(offsets)
    ensures dict == Samples(Stream(pairs), offsets)
  {
    dict := [];
    var next, dataBegin := 0, 0;
    LateSamplesAreEmpty([], offsets, 0);
    for i := 0 to |pairs|
      invariant Standing(Stream(pairs[..i]), offsets, next) && dataBegin == |Stream(pairs[..i])|
      invariant dict == Samples(Stream(pairs[..i]), offsets)
    {
      ghost var before := Stream(pairs[..i]);
      assert pairs[..i + 1][..i] == pairs[..i];
      next, dict := SampleElement(pairs[i].key, offsets, next, dataBegin, dict, before);
      dataBegin := dataBegin + |pairs[i].key|;
      next, dict := SampleElement(pairs[i].value, offsets, next, dataBegin, dict, before + pairs[i].key);
      dataBegin := dataBegin + |pairs[i].value|;
    }
    assert pairs[..|pairs|] == pairs;
  }

  /** When the stream reaches past the last sample, the dictionary has full length; it is never longer. */
  lemma {:induction false} DictionaryLength(s: Bytes, offsets: seq<nat>)
    ensures |Samples(s, offsets)| <= SAMPLE_LEN * |offsets|
    ensures (forall k :: 0 <= k < |offsets| ==> offsets[k] + SAMPLE_LEN <= |s|) ==> |Samples(s, offsets)| == SAMPLE_LEN * |offsets|
  {
    if offsets != [] {
      DictionaryLength(s, offsets[..|offsets| - 1]);
    }
  }

  /** Piece `k` of the dictionary is the stream from the offset on. */
  ghost predicate PieceIs(dict: Bytes, k: nat, s: Bytes, offset: nat) {
    && k * SAMPLE_LEN + SAMPLE_LEN <= |dict| && offset + SAMPLE_LEN <= |s|
    && dict[k * SAMPLE_LEN..k * SAMPLE_LEN + SAMPLE_LEN] == s[offset..offset + SAMPLE_LEN]
  }

  lemma PieceStays(dict: Bytes, more: Bytes, k: nat, s: Bytes, offset: nat)
    requires PieceIs(dict, k, s, offset)
    ensures PieceIs(dict + more, k, s, offset)
  {
    var at := k * SAMPLE_LEN;
    assert (dict + more)[at..at + SAMPLE_LEN] == dict[at..at + SAMPLE_LEN];
  }

  lemma LastPiece(dict: Bytes, k: nat, s: Bytes, offset: nat)
    requires |dict| == k * SAMPLE_LEN && offset + SAMPLE_LEN <= |s|
    ensures PieceIs(dict + s[offset..offset + SAMPLE_LEN], k, s, offset)
  {
    var at, piece := k * SAMPLE_LEN, s[offset..offset + SAMPLE_LEN];
    assert (dict + piece)[at..at + SAMPLE_LEN] == piece;
  }

  /** Byte for byte: as long as samples are complete, each is 64 bytes of the stream from its offset on. */
  lemma {:induction false} DictionaryBytes(s: Bytes, offsets: seq<nat>, k: nat)
    requires k < |offsets| && forall i :: 0 <= i <= k ==> offsets[i] + SAMPLE_LEN <= |s|
    ensures PieceIs(Samples(s, offsets), k, s, offsets[k])
    decreases |offsets|
  {
    var n := |offsets| - 1;
    var before, last := Samples(s, offsets[..n]), Sample(s, offsets[n]);
    SamplesStep(s, offsets, n);
    assert offsets[..n + 1] == offsets;
    assert k == n ==> last == s[offsets[k]..offsets[k] + SAMPLE_LEN];
    hide PieceIs, Samples, Sample;
    if k < n {
      DictionaryBytes(s, offsets[..n], k);
      PieceStays(before, last, k, s, offsets[k]);
    } else {
      DictionaryLength(s, offsets[..n]);
      LastPiece(before, k, s, offsets[k]);
    }
  }

  /** The stream holds each pair behind those before it, the key first. */
  lemma {:induction false} StreamHoldsPair(pairs: seq<Pair>, i: nat)
    requires i < |pairs|
    ensures Stream(pairs[..i]) + pairs[i].key + pairs[i].value <= Stream(pairs)
  {
    var n := |pairs| - 1;
    if i < n {
      StreamHoldsPair(pairs[..n], i);
      assert pairs[..n][..i] == pairs[..i];
    }
  }
}
