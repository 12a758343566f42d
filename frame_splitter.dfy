/**
  The frame splitter of index.js (class ExtractFrames): a stream transform
  that cuts a byte stream into frames, each running from one occurrence of a
  fixed delimiter up to (not including) the next one.
 */
module FrameSplitter {
  import opened Wrappers
  import opened SeqFacts

  newtype Byte = b: int | 0 <= b < 256

  type Bytes = seq<Byte>

  /** The delimiter index.js splits the decoder's output on: the eight-byte PNG signature. */
  const PngSignature: Bytes := [0x89, 0x50, 0x4E, 0x47, 0x0D, 0x0A, 0x1A, 0x0A]

  /** The delimiter occurs in `buf` starting at offset `k`. */
  predicate OccursAt(buf: Bytes, d: Bytes, k: int)
  {
    0 <= k && k + |d| <= |buf| && MatchFrom(buf, d, k, 0)
  }

  /** Bytes `j..` of the delimiter agree with the bytes of `buf` from `k + j` on, compared one at a time. */
  predicate MatchFrom(buf: Bytes, d: Bytes, k: nat, j: nat)
    requires j <= |d| && k + |d| <= |buf|
    decreases |d| - j
  {
    j == |d| || (buf[k + j] == d[j] && MatchFrom(buf, d, k, j + 1))
  }

  /** The byte-by-byte comparison agrees with comparing the slices. */
  lemma {:induction false} MatchFromSlice(buf: Bytes, d: Bytes, k: nat, j: nat)
    requires j <= |d| && k + |d| <= |buf|
    ensures MatchFrom(buf, d, k, j) <==> buf[k + j..k + |d|] == d[j..]
    decreases |d| - j
  {
    if j < |d| {
      MatchFromSlice(buf, d, k, j + 1);
      assert buf[k + j..k + |d|] == [buf[k + j]] + buf[k + j + 1..k + |d|];
      assert d[j..] == [d[j]] + d[j + 1..];
    }
  }

  /** An occurrence is a slice of the buffer equal to the delimiter. */
  lemma OccursAtSlice(buf: Bytes, d: Bytes, k: int)
    ensures OccursAt(buf, d, k) <==> 0 <= k && k + |d| <= |buf| && buf[k..k + |d|] == d
  {
    if 0 <= k && k + |d| <= |buf| {
      MatchFromSlice(buf, d, k, 0);
    }
  }

  /**
    `buf.indexOf(d, from)` of a Node Buffer: the first offset at or after
    `from` where `d` occurs, or None (the -1 of the source).
   */
  function IndexOf(buf: Bytes, d: Bytes, from: nat): (r: Option<nat>)
    requires |d| > 0
    ensures r.Some? ==> from <= r.value && OccursAt(buf, d, r.value)
    decreases |buf| - from
  {
    if from + |d| > |buf| then None
    else if OccursAt(buf, d, from) then Some(from)
    else IndexOf(buf, d, from + 1)
  }

  /** IndexOf finds the FIRST occurrence at or after `from`, and None means there is none. */
  lemma {:induction false} IndexOfFirst(buf: Bytes, d: Bytes, from: nat)
    requires |d| > 0
    ensures IndexOf(buf, d, from).Some? ==>
              forall k :: from <= k < IndexOf(buf, d, from).value ==> !OccursAt(buf, d, k)
    ensures IndexOf(buf, d, from).None? ==> forall k :: from <= k ==> !OccursAt(buf, d, k)
    decreases |buf| - from
  {
    if from + |d| <= |buf| && !OccursAt(buf, d, from) {
      IndexOfFirst(buf, d, from + 1);
    }
  }

  /** All frames, concatenated in order. */
  function Flatten(frames: seq<Bytes>): (r: Bytes)
  {
    if frames == [] then [] else frames[0] + Flatten(frames[1..])
  }

  /**
    The next frame one pass of the loop body of `_transform` cuts from `buf`:
    the offset of the first delimiter and that of the following one, or None
    when the loop breaks.
   */
  function NextFrame(d: Bytes, buf: Bytes): (r: Option<(nat, nat)>)
    requires |d| > 0
    ensures r.Some? ==> r.value.0 + |d| <= r.value.1 <= |buf|
  {
    match IndexOf(buf, d, 0)
    case None => None
    case Some(start) =>
      match IndexOf(buf, d, start + |d|)
      case None => None
      case Some(end) => Some((start, end))
  }

  /**
    What one run of the `while (true)` loop of `_transform` does to a buffer:
    the frames it emits, in order, and the buffer it leaves behind.
   */
  function Split(d: Bytes, buf: Bytes): (r: (seq<Bytes>, Bytes))
    requires |d| > 0
    ensures |r.1| <= |buf|
    ensures r.0 == [] <==> r.1 == buf
    decreases |buf|
  {
    match NextFrame(d, buf)
    case None => ([], buf)
    case Some((start, end)) =>
      var rest := Split(d, buf[end..]);
      ([buf[start..end]] + rest.0, rest.1)
  }

  /** A buffer on which the loop stops: no delimiter, or no second one. */
  predicate Stuck(d: Bytes, buf: Bytes)
    requires |d| > 0
  {
    NextFrame(d, buf).None?
  }

  /**
    A well-formed frame: it begins with the delimiter and the delimiter does
    not occur inside it at any later offset (the frame ends where the next one
    begins).
   */
  predicate IsFrame(d: Bytes, f: Bytes)
  {
    |d| <= |f| && f[..|d|] == d && forall k :: |d| <= k <= |f| - |d| ==> !OccursAt(f, d, k)
  }

  /**
    The number of delimiter occurrences the splitter sees, scanning from
    `from`: each occurrence it finds hides the bytes of the delimiter itself,
    so occurrences overlapping a found one are not counted.
   */
  function CountFrom(buf: Bytes, d: Bytes, from: nat): nat
    requires |d| > 0
    decreases |buf| - from
  {
    match IndexOf(buf, d, from)
    case None => 0
    case Some(i) => 1 + CountFrom(buf, d, i + |d|)
  }

  /**
    Feeding a sequence of chunks, one `_transform` call each, starting from
    the residual buffer `residual`.
   */
  function FeedAll(d: Bytes, residual: Bytes, chunks: seq<Bytes>): (r: (seq<Bytes>, Bytes))
    requires |d| > 0
    decreases |chunks|
  {
    if chunks == [] then ([], residual)
    else
      var first := Split(d, residual + chunks[0]);
      var rest := FeedAll(d, first.1, chunks[1..]);
      (first.0 + rest.0, rest.1)
  }

  /** Proof step: unfolding of Split on a buffer where the loop emits a frame. */
  lemma SplitEmits(d: Bytes, buf: Bytes, start: nat, end: nat)
    requires |d| > 0 && NextFrame(d, buf) == Some((start, end))
    ensures end <= |buf|
    ensures Split(d, buf).0 == [buf[start..end]] + Split(d, buf[end..]).0
    ensures Split(d, buf).1 == Split(d, buf[end..]).1
  {
  }

  /** Slicing keeps occurrences that lie inside the slice. */
  lemma OccursInSlice(buf: Bytes, d: Bytes, lo: nat, hi: nat, k: nat)
    requires lo <= hi <= |buf|
    requires OccursAt(buf[lo..hi], d, k)
    ensures OccursAt(buf, d, lo + k)
  {
    OccursAtSlice(buf[lo..hi], d, k);
    OccursAtSlice(buf, d, lo + k);
    assert buf[lo..hi][k..k + |d|] == buf[lo..hi][k..][..|d|];
    assert buf[lo..hi][k..k + |d|] == buf[lo + k..lo + k + |d|];
  }

  lemma SliceOfAppend(b: Bytes, c: Bytes, i: nat, j: nat)
    requires i <= j <= |b|
    ensures (b + c)[i..j] == b[i..j]
    ensures (b + c)[j..] == b[j..] + c
  {
  }

  /** Appending bytes does not change an occurrence that ends before them. */
  lemma OccursInPrefix(b: Bytes, c: Bytes, d: Bytes, j: int)
    requires 0 <= j && j + |d| <= |b|
    ensures OccursAt(b + c, d, j) <==> OccursAt(b, d, j)
  {
    OccursAtSlice(b + c, d, j);
    OccursAtSlice(b, d, j);
    assert (b + c)[j..j + |d|] == b[j..j + |d|];
  }

  /** A delimiter found in `b` is still the first one found once more data arrives. */
  lemma IndexOfExtend(b: Bytes, c: Bytes, d: Bytes, from: nat)
    requires |d| > 0 && IndexOf(b, d, from).Some?
    ensures IndexOf(b + c, d, from) == IndexOf(b, d, from)
  {
    var i := IndexOf(b, d, from).value;
    IndexOfFirst(b, d, from);
    IndexOfFirst(b + c, d, from);
    OccursInPrefix(b, c, d, i);
    var r := IndexOf(b + c, d, from);
    assert r.Some? && r.value <= i;
    if r.value < i {
      OccursInPrefix(b, c, d, r.value);
      assert false;
    }
  }

  /** Occurrences in a suffix are occurrences in the whole buffer, shifted. */
  lemma OccursInSuffix(buf: Bytes, d: Bytes, m: nat, k: nat)
    requires m <= |buf|
    ensures OccursAt(buf[m..], d, k) <==> OccursAt(buf, d, m + k)
  {
    OccursAtSlice(buf[m..], d, k);
    OccursAtSlice(buf, d, m + k);
    if k + |d| <= |buf| - m {
      assert buf[m..][k..k + |d|] == buf[m + k..m + k + |d|];
    }
  }

  /** Searching a suffix is searching the whole buffer further on. */
  lemma IndexOfSuffix(buf: Bytes, d: Bytes, m: nat, k: nat)
    requires |d| > 0 && m <= |buf|
    ensures IndexOf(buf[m..], d, k).None? <==> IndexOf(buf, d, m + k).None?
    ensures IndexOf(buf[m..], d, k).Some? ==>
              IndexOf(buf, d, m + k).value == m + IndexOf(buf[m..], d, k).value
  {
    var a := IndexOf(buf[m..], d, k);
    var b := IndexOf(buf, d, m + k);
    IndexOfFirst(buf[m..], d, k);
    IndexOfFirst(buf, d, m + k);
    if a.Some? {
      OccursInSuffix(buf, d, m, a.value);
      assert b.Some? && b.value <= m + a.value;
      OccursInSuffix(buf, d, m, b.value - m);
    } else if b.Some? {
      OccursInSuffix(buf, d, m, b.value - m);
      assert false;
    }
  }

  /** The frame cut out by one loop iteration is well formed. */
  lemma EmittedFrameWellFormed(d: Bytes, buf: Bytes, start: nat, end: nat)
    requires |d| > 0 && NextFrame(d, buf) == Some((start, end))
    ensures IsFrame(d, buf[start..end])
  {
    var f := buf[start..end];
    NextFrameFound(d, buf, start, end);
    IndexOfFirst(buf, d, start + |d|);
    OccursAtSlice(buf, d, start);
    assert f[..|d|] == buf[start..start + |d|];
    forall k | |d| <= k <= |f| - |d|
      ensures !OccursAt(f, d, k)
    {
      if OccursAt(f, d, k) {
        OccursInSlice(buf, d, start, end, k);
        assert false;
      }
    }
  }

  /** Every frame the splitter emits begins with the delimiter and holds no other one. */
  lemma {:induction false} SplitFramesWellFormed(d: Bytes, buf: Bytes)
    requires |d| > 0
    ensures forall i :: 0 <= i < |Split(d, buf).0| ==> IsFrame(d, Split(d, buf).0[i])
    decreases |buf|
  {
    match NextFrame(d, buf)
    case None =>
    case Some((start, end)) =>
      SplitEmits(d, buf, start, end);
      EmittedFrameWellFormed(d, buf, start, end);
      SplitFramesWellFormed(d, buf[end..]);
      var later := Split(d, buf[end..]).0;
      forall i | 0 <= i < |Split(d, buf).0|
        ensures IsFrame(d, Split(d, buf).0[i])
      {
        if i > 0 {
          assert Split(d, buf).0[i] == later[i - 1];
        }
      }
  }

  /** The loop only stops on a buffer where it cannot cut another frame. */
  lemma {:induction false} SplitLeavesStuck(d: Bytes, buf: Bytes)
    requires |d| > 0
    ensures Stuck(d, Split(d, buf).1)
    decreases |buf|
  {
    match NextFrame(d, buf)
    case None =>
    case Some((start, end)) =>
      SplitEmits(d, buf, start, end);
      SplitLeavesStuck(d, buf[end..]);
  }

  /** Proof step: the loop does nothing to a buffer on which it is stuck, and only to such a buffer. */
  lemma SplitStuckIsIdentity(d: Bytes, buf: Bytes)
    requires |d| > 0
    ensures Stuck(d, buf) <==> Split(d, buf) == ([], buf)
  {
  }

  lemma FlattenCons(f: Bytes, fs: seq<Bytes>)
    ensures Flatten([f] + fs) == f + Flatten(fs)
  {
    assert ([f] + fs)[1..] == fs;
  }

  /** Proof step: the two searches behind a frame the loop cuts. */
  lemma NextFrameFound(d: Bytes, buf: Bytes, start: nat, end: nat)
    requires |d| > 0 && NextFrame(d, buf) == Some((start, end))
    ensures IndexOf(buf, d, 0) == Some(start) && OccursAt(buf, d, start)
    ensures IndexOf(buf, d, start + |d|) == Some(end) && OccursAt(buf, d, end)
  {
  }

  /**
    No byte is lost except those before the first delimiter: the buffer is
    that discarded prefix, then the frames, then the residual, and once a
    frame was emitted the residual starts with the delimiter that closed it.
   */
  lemma {:induction false} SplitConserves(d: Bytes, buf: Bytes)
    requires |d| > 0
    ensures Split(d, buf).0 == [] ==> Split(d, buf).1 == buf
    ensures Split(d, buf).0 != [] ==>
              && IndexOf(buf, d, 0).Some?
              && buf == buf[..IndexOf(buf, d, 0).value] + Flatten(Split(d, buf).0) + Split(d, buf).1
              && OccursAt(Split(d, buf).1, d, 0)
    decreases |buf|
  {
    match NextFrame(d, buf)
    case None =>
      SplitStuckIsIdentity(d, buf);
    case Some((start, end)) =>
      SplitEmits(d, buf, start, end);
      NextFrameFound(d, buf, start, end);
      var tail := buf[end..];
      SplitConserves(d, tail);
      OccursInSuffix(buf, d, end, 0);
      IndexOfAt(tail, d, 0);
      var (fs, r) := Split(d, tail);
      if fs == [] {
        ConservesLast(buf, start, end, r);
      } else {
        EmptyAppend(Flatten(fs));
        ConservesMiddle(buf, start, end, fs, r);
      }
  }

  /** SplitConserves when the frame cut is the last one. */
  lemma ConservesLast(buf: Bytes, start: nat, end: nat, r: Bytes)
    requires start <= end <= |buf| && r == buf[end..]
    ensures buf == buf[..start] + Flatten([buf[start..end]]) + r
  {
    FlattenCons(buf[start..end], []);
    Tile(buf, start, end);
    AppendEmpty(buf[start..end]);
    Regroup4(buf[..start], buf[start..end], [], r);
  }

  /** SplitConserves when more frames follow the one cut. */
  lemma ConservesMiddle(buf: Bytes, start: nat, end: nat, fs: seq<Bytes>, r: Bytes)
    requires start <= end <= |buf| && buf[end..] == Flatten(fs) + r
    ensures buf == buf[..start] + Flatten([buf[start..end]] + fs) + r
  {
    FlattenCons(buf[start..end], fs);
    Tile(buf, start, end);
    Regroup4(buf[..start], buf[start..end], Flatten(fs), r);
  }

  /**
    Cutting `b + c` gives the frames cut from `b`, followed by the frames cut
    from what `b` left behind once `c` is appended to it.
   */
  lemma {:induction false} SplitAppend(d: Bytes, b: Bytes, c: Bytes)
    requires |d| > 0
    ensures Split(d, b + c).0 == Split(d, b).0 + Split(d, Split(d, b).1 + c).0
    ensures Split(d, b + c).1 == Split(d, Split(d, b).1 + c).1
    decreases |b|, 1
  {
    match NextFrame(d, b)
    case None =>
      SplitStuckIsIdentity(d, b);
      EmptyAppend(Split(d, b + c).0);
    case Some((start, end)) =>
      SplitAppendEmits(d, b, c, start, end);
  }

  /** SplitAppend when `b` holds a complete frame: peel it off and recur on the rest. */
  lemma {:induction false} SplitAppendEmits(d: Bytes, b: Bytes, c: Bytes, start: nat, end: nat)
    requires |d| > 0 && NextFrame(d, b) == Some((start, end))
    ensures Split(d, b + c).0 == Split(d, b).0 + Split(d, Split(d, b).1 + c).0
    ensures Split(d, b + c).1 == Split(d, Split(d, b).1 + c).1
    decreases |b|, 0
  {
    SplitEmits(d, b, start, end);
    FirstFrameSurvivesAppend(d, b, c, start, end);
    var tail := b[end..];
    SplitAppend(d, tail, c);
    Assoc([b[start..end]], Split(d, tail).0, Split(d, Split(d, tail).1 + c).0);
  }

  /** A frame complete in `b` is emitted first from `b + c` too. */
  lemma FirstFrameSurvivesAppend(d: Bytes, b: Bytes, c: Bytes, start: nat, end: nat)
    requires |d| > 0 && NextFrame(d, b) == Some((start, end))
    ensures end <= |b|
    ensures Split(d, b + c).0 == [b[start..end]] + Split(d, b[end..] + c).0
    ensures Split(d, b + c).1 == Split(d, b[end..] + c).1
  {
    IndexOfExtend(b, c, d, 0);
    IndexOfExtend(b, c, d, start + |d|);
    assert NextFrame(d, b + c) == Some((start, end));
    SplitEmits(d, b + c, start, end);
    SliceOfAppend(b, c, start, end);
  }

  /**
    Chunk-boundary independence: feeding the chunks one `_transform` call at a
    time emits the same frames and leaves the same residual as feeding their
    concatenation at once.
   */
  lemma {:induction false} FeedAllIsSplit(d: Bytes, residual: Bytes, chunks: seq<Bytes>)
    requires |d| > 0 && Stuck(d, residual)
    ensures FeedAll(d, residual, chunks).0 == Split(d, residual + Flatten(chunks)).0
    ensures FeedAll(d, residual, chunks).1 == Split(d, residual + Flatten(chunks)).1
    decreases |chunks|, 1
  {
    if chunks == [] {
      AppendEmpty(residual);
      SplitStuckIsIdentity(d, residual);
    } else {
      FeedAllIsSplitCons(d, residual, chunks);
    }
  }

  /** FeedAllIsSplit for a non-empty list of chunks: one call, then the rest. */
  lemma {:induction false} FeedAllIsSplitCons(d: Bytes, residual: Bytes, chunks: seq<Bytes>)
    requires |d| > 0 && Stuck(d, residual) && chunks != []
    ensures FeedAll(d, residual, chunks).0 == Split(d, residual + Flatten(chunks)).0
    ensures FeedAll(d, residual, chunks).1 == Split(d, residual + Flatten(chunks)).1
    decreases |chunks|, 0
  {
    var b := residual + chunks[0];
    SplitLeavesStuck(d, b);
    FeedAllIsSplit(d, Split(d, b).1, chunks[1..]);
    SplitAppend(d, b, Flatten(chunks[1..]));
    FlattenFirst(residual, chunks);
  }

  lemma FlattenFirst(residual: Bytes, chunks: seq<Bytes>)
    requires chunks != []
    ensures residual + Flatten(chunks) == (residual + chunks[0]) + Flatten(chunks[1..])
  {
  }

  /** A fresh splitter starts from the empty buffer, on which it is stuck. */
  lemma ChunkBoundaryIndependence(d: Bytes, chunks: seq<Bytes>)
    requires |d| > 0
    ensures FeedAll(d, [], chunks) == Split(d, Flatten(chunks))
  {
    assert Stuck(d, []);
    FeedAllIsSplit(d, [], chunks);
    EmptyAppend(Flatten(chunks));
  }

  /** Unfolding of CountFrom where the search finds a delimiter. */
  lemma CountFound(buf: Bytes, d: Bytes, from: nat, i: nat)
    requires |d| > 0 && IndexOf(buf, d, from) == Some(i)
    ensures CountFrom(buf, d, from) == 1 + CountFrom(buf, d, i + |d|)
  {
  }

  /** Unfolding of CountFrom where the search finds nothing. */
  lemma CountNotFound(buf: Bytes, d: Bytes, from: nat)
    requires |d| > 0 && IndexOf(buf, d, from).None?
    ensures CountFrom(buf, d, from) == 0
  {
  }

  /** A search that starts on an occurrence finds it. */
  lemma IndexOfAt(buf: Bytes, d: Bytes, k: nat)
    requires |d| > 0 && OccursAt(buf, d, k)
    ensures IndexOf(buf, d, k) == Some(k)
  {
  }

  /** Counting from offset `k` of a suffix is counting from `m + k` in the whole buffer. */
  lemma {:induction false} CountFromSuffix(buf: Bytes, d: Bytes, m: nat, k: nat)
    requires |d| > 0 && m <= |buf|
    ensures CountFrom(buf[m..], d, k) == CountFrom(buf, d, m + k)
    decreases |buf| - m - k, 1
  {
    IndexOfSuffix(buf, d, m, k);
    var r := IndexOf(buf[m..], d, k);
    if r.Some? {
      CountFromSuffixFound(buf, d, m, k, r.value);
    } else {
      CountNotFound(buf[m..], d, k);
      CountNotFound(buf, d, m + k);
    }
  }

  lemma {:induction false} CountFromSuffixFound(buf: Bytes, d: Bytes, m: nat, k: nat, i: nat)
    requires |d| > 0 && m <= |buf|
    requires IndexOf(buf[m..], d, k) == Some(i) && IndexOf(buf, d, m + k) == Some(m + i)
    ensures CountFrom(buf[m..], d, k) == CountFrom(buf, d, m + k)
    decreases |buf| - m - k, 0
  {
    CountFound(buf[m..], d, k, i);
    CountFound(buf, d, m + k, m + i);
    CountFromSuffix(buf, d, m, i + |d|);
    assert m + (i + |d|) == m + i + |d|;
  }

  /**
    The number of frames one pass emits: one fewer than the delimiters the
    search meets, or none when it meets none.
   */
  lemma {:induction false} SplitCount(d: Bytes, buf: Bytes)
    requires |d| > 0
    ensures |Split(d, buf).0| == if CountFrom(buf, d, 0) == 0 then 0 else CountFrom(buf, d, 0) - 1
    decreases |buf|
  {
    match NextFrame(d, buf)
    case None =>
      SplitStuckIsIdentity(d, buf);
      CountStuck(d, buf);
    case Some((start, end)) =>
      SplitEmits(d, buf, start, end);
      SplitCount(d, buf[end..]);
      CountStep(d, buf, start, end);
  }

  /** On a buffer where the loop stops, the search meets at most one delimiter. */
  lemma CountStuck(d: Bytes, buf: Bytes)
    requires |d| > 0 && Stuck(d, buf)
    ensures CountFrom(buf, d, 0) <= 1
  {
    match IndexOf(buf, d, 0)
    case None =>
    case Some(start) =>
      assert CountFrom(buf, d, start + |d|) == 0;
  }

  /** The delimiters met in a buffer: the two around the first frame, then those met after it. */
  lemma CountStep(d: Bytes, buf: Bytes, start: nat, end: nat)
    requires |d| > 0 && NextFrame(d, buf) == Some((start, end))
    ensures CountFrom(buf, d, 0) == 1 + CountFrom(buf[end..], d, 0)
  {
    NextFrameFound(d, buf, start, end);
    CountFound(buf, d, 0, start);
    CountFromSuffix(buf, d, end, 0);
    IndexOfAt(buf, d, end);
    CountFound(buf, d, start + |d|, end);
    CountFound(buf, d, end, end);
  }

  /**
    A delimiter that cannot overlap itself: no proper suffix of it is also a
    prefix of it, so two of its occurrences are at least its length apart.
   */
  predicate NoSelfOverlap(d: Bytes)
  {
    forall j :: 0 < j < |d| ==> d[j..] != d[..|d| - j]
  }

  /** The number of offsets at or after `from` where the delimiter occurs, overlapping or not. */
  function Occurrences(buf: Bytes, d: Bytes, from: nat): nat
    requires |d| > 0
    decreases |buf| - from
  {
    if from + |d| > |buf| then 0
    else (if OccursAt(buf, d, from) then 1 else 0) + Occurrences(buf, d, from + 1)
  }

  /** An occurrence of a delimiter that cannot overlap itself hides no other occurrence. */
  lemma OverlapExcluded(buf: Bytes, d: Bytes, i: nat, k: nat)
    requires NoSelfOverlap(d) && OccursAt(buf, d, i) && i < k < i + |d|
    ensures !OccursAt(buf, d, k)
  {
    OccursAtSlice(buf, d, i);
    OccursAtSlice(buf, d, k);
    if k + |d| <= |buf| {
      var j := k - i;
      assert buf[i..i + |d|][j..] == buf[k..i + |d|];
      assert buf[k..k + |d|][..|d| - j] == buf[k..i + |d|];
    }
  }

  /** Offsets without an occurrence add nothing to the count. */
  lemma {:induction false} OccurrencesSkip(buf: Bytes, d: Bytes, from: nat, to: nat)
    requires |d| > 0 && from <= to
    requires forall k :: from <= k < to ==> !OccursAt(buf, d, k)
    ensures Occurrences(buf, d, from) == Occurrences(buf, d, to)
    decreases (to as int) - (from as int)
  {
    if from < to && from + |d| <= |buf| {
      OccurrencesSkip(buf, d, from + 1, to);
    }
  }

  /** With no occurrence at or after `from`, the count is zero. */
  lemma OccurrencesNone(buf: Bytes, d: Bytes, from: nat)
    requires |d| > 0 && forall k :: from <= k ==> !OccursAt(buf, d, k)
    ensures Occurrences(buf, d, from) == 0
  {
    var to := if from < |buf| then |buf| else from;
    OccurrencesSkip(buf, d, from, to);
  }

  /**
    For a delimiter that cannot overlap itself, the search of the loop meets
    every occurrence: its count is the plain count of occurrences.
   */
  lemma {:induction false} CountIsOccurrences(buf: Bytes, d: Bytes, from: nat)
    requires |d| > 0 && NoSelfOverlap(d)
    ensures CountFrom(buf, d, from) == Occurrences(buf, d, from)
    decreases |buf| - from
  {
    IndexOfFirst(buf, d, from);
    match IndexOf(buf, d, from)
    case None =>
      CountNotFound(buf, d, from);
      OccurrencesNone(buf, d, from);
    case Some(i) =>
      CountFound(buf, d, from, i);
      OccurrencesSkip(buf, d, from, i);
      forall k | i + 1 <= k < i + |d|
        ensures !OccursAt(buf, d, k)
      {
        OverlapExcluded(buf, d, i, k);
      }
      OccurrencesSkip(buf, d, i + 1, i + |d|);
      CountIsOccurrences(buf, d, i + |d|);
  }

  /**
    For a delimiter that cannot overlap itself, k occurrences give k - 1
    frames (none when there is no occurrence).
   */
  lemma SplitCountOccurrences(d: Bytes, buf: Bytes)
    requires |d| > 0 && NoSelfOverlap(d)
    ensures |Split(d, buf).0| == if Occurrences(buf, d, 0) == 0 then 0 else Occurrences(buf, d, 0) - 1
  {
    SplitCount(d, buf);
    CountIsOccurrences(buf, d, 0);
  }

  /** The PNG signature cannot overlap itself: its first byte 0x89 occurs nowhere else in it. */
  lemma PngSignatureNoSelfOverlap()
    ensures NoSelfOverlap(PngSignature)
  {
    var d := PngSignature;
    forall j | 0 < j < |d|
      ensures d[j..] != d[..|d| - j]
    {
      assert d[..|d| - j][0] == 0x89;
      assert d[j..][0] == d[j] != 0x89;
    }
  }

  /** Cutting the decoder's output: k PNG signatures give k - 1 images. */
  lemma PngFrameCount(buf: Bytes)
    ensures |Split(PngSignature, buf).0| ==
              if Occurrences(buf, PngSignature, 0) == 0 then 0 else Occurrences(buf, PngSignature, 0) - 1
  {
    PngSignatureNoSelfOverlap();
    SplitCountOccurrences(PngSignature, buf);
  }

  /**
    A delimiter that overlaps itself: `[1, 1]` occurs twice in `[1, 1, 1]`,
    but the search skips the second occurrence and no frame is cut.
   */
  lemma OverlapSkipped()
    ensures Occurrences([1, 1, 1], [1, 1], 0) == 2
    ensures CountFrom([1, 1, 1], [1, 1], 0) == 1
    ensures Split([1, 1], [1, 1, 1]).0 == []
  {
    var buf: Bytes, d: Bytes := [1, 1, 1], [1, 1];
    assert OccursAt(buf, d, 0) && OccursAt(buf, d, 1);
    assert IndexOf(buf, d, 0) == Some(0);
    assert IndexOf(buf, d, 2) == None;
  }

  /** One `_transform` call, then the rest of the chunks. */
  lemma FeedAllStep(d: Bytes, residual: Bytes, chunks: seq<Bytes>, i: nat)
    requires |d| > 0 && i < |chunks|
    ensures FeedAll(d, residual, chunks[i..]).0 ==
              Split(d, residual + chunks[i]).0 + FeedAll(d, Split(d, residual + chunks[i]).1, chunks[i + 1..]).0
    ensures FeedAll(d, residual, chunks[i..]).1 ==
              FeedAll(d, Split(d, residual + chunks[i]).1, chunks[i + 1..]).1
  {
    assert chunks[i..][0] == chunks[i];
    assert chunks[i..][1..] == chunks[i + 1..];
  }

  /**
    The pipeline of the `data` handler: a fresh splitter fed the chunks of
    the decoder's output one at a time, in order. The frames it emits and the
    bytes it keeps are those of a single pass over the whole stream.
   */
  method SplitStream(d: Bytes, chunks: seq<Bytes>) returns (frames: seq<Bytes>, residual: Bytes)
    requires |d| > 0
    ensures frames == Split(d, Flatten(chunks)).0
    ensures residual == Split(d, Flatten(chunks)).1
  {
    var splitter := new ExtractFrames(d);
    frames := [];
    var i := 0;
    while i < |chunks|
      invariant 0 <= i <= |chunks|
      invariant splitter.delimiter == d
      invariant frames + FeedAll(d, splitter.buffer, chunks[i..]).0 == FeedAll(d, [], chunks).0
      invariant FeedAll(d, splitter.buffer, chunks[i..]).1 == FeedAll(d, [], chunks).1
    {
      FeedAllStep(d, splitter.buffer, chunks, i);
      var emitted := splitter.Transform(chunks[i]);
      Assoc(frames, emitted, FeedAll(d, splitter.buffer, chunks[i + 1..]).0);
      frames := frames + emitted;
      i := i + 1;
    }
    assert chunks[i..] == [];
    AppendEmpty(frames);
    residual := splitter.buffer;
    ChunkBoundaryIndependence(d, chunks);
  }

  class ExtractFrames {
    const delimiter: Bytes
    var buffer: Bytes

    constructor (delimiter: Bytes)
      requires |delimiter| > 0
      ensures this.delimiter == delimiter && buffer == []
    {
      this.delimiter := delimiter;
      buffer := [];
    }

    /**
      `_transform(data)`: append the chunk, then emit every complete frame.
      The frames are returned in the order the source pushes them.
     */
    method Transform(data: Bytes) returns (frames: seq<Bytes>)
      requires |delimiter| > 0
      modifies this
      ensures frames == Split(delimiter, old(buffer) + data).0
      ensures buffer == Split(delimiter, old(buffer) + data).1
    {
      ghost var whole := buffer + data;
      buffer := buffer + data;
      frames := [];
      while true
        invariant Split(delimiter, whole).0 == frames + Split(delimiter, buffer).0
        invariant Split(delimiter, whole).1 == Split(delimiter, buffer).1
        decreases |buffer|
      {
        var next := NextFrame(delimiter, buffer);
        if next.None? {
          SplitStuckIsIdentity(delimiter, buffer);
          AppendEmpty(frames);
          break;
        }
        var (start, end) := next.value;
        SplitEmits(delimiter, buffer, start, end);
        var frame := buffer[start..end];
        ghost var later := Split(delimiter, buffer[end..]).0;
        Assoc(frames, [frame], later);
        frames := frames + [frame];
        buffer := buffer[end..];
      }
    }
  }
}
