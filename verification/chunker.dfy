/** `chunk_text(text, chunk_size=500)`: the whitespace-separated words of the
    text, grouped into consecutive slices of `chunk_size` words (the last slice
    may be shorter), each slice joined with single spaces. */
module Chunker {
  import opened Results
  import opened Seqs
  import opened Words
  import opened Ranges

  /** The default `chunk_size`. */
  const DefaultChunkSize: nat := 500

  /** The error `range` raises for a zero step. */
  datatype ChunkError = ZeroChunkSize

  /** `[words[i:i+n] for i in range(0, len(words), n)]`. */
  function Groups<T>(words: seq<T>, n: nat): (groups: seq<seq<T>>)
    requires n >= 1
    ensures |groups| == CeilDiv(|words|, n)
  {
    SlicesFrom(words, 0, n)
  }

  /** `[words[i:i+n] for i in range(lo, len(words), n)]`, built the way the
      range counts: the slice at `lo`, then the slices from `lo + n` on. Every
      start lies inside the list, so Python's clamping of the slice only ever
      moves its end, down to the length of the list. There is one slice per
      element of the range. */
  function SlicesFrom<T>(words: seq<T>, lo: nat, n: nat): (slices: seq<seq<T>>)
    requires n >= 1
    ensures |slices| == if lo < |words| then CeilDiv(|words| - lo, n) else 0
    decreases |words| - lo
  {
    if lo >= |words| then []
    else [words[lo..Min(lo + n, |words|)]] + SlicesFrom(words, lo + n, n)
  }

  /** `slice` is the run of words from `start`, `n` words long or cut at the
      end of the list. */
  ghost predicate SliceFrom<T>(words: seq<T>, slice: seq<T>, start: int, n: nat)
  {
    0 <= start < |words| && slice == words[start..Min(start + n, |words|)]
  }

  /** Slice `k` starts at element `k` of the range. */
  lemma {:induction false} SlicesFromIndex<T>(words: seq<T>, lo: nat, n: nat, k: nat)
    requires n >= 1 && k < |SlicesFrom(words, lo, n)|
    ensures k < |Range(lo, |words|, n)|
    ensures SliceFrom(words, SlicesFrom(words, lo, n)[k], Range(lo, |words|, n)[k], n)
    decreases k
  {
    SlicesPerStart(words, lo, n);
    if k == 0 {
      SlicesHead(words, lo, n);
    } else {
      SlicesFromIndex(words, lo + n, n, k - 1);
      RangeTail(lo, |words|, n, k);
      SlicesTail(words, lo, n, k);
    }
  }

  /** There is one slice per element of the range. */
  lemma SlicesPerStart<T>(words: seq<T>, lo: nat, n: nat)
    requires n >= 1
    ensures |SlicesFrom(words, lo, n)| == |Range(lo, |words|, n)|
  {
  }

  /** The first slice from `lo` starts at `lo`, the first element of the range. */
  lemma SlicesHead<T>(words: seq<T>, lo: nat, n: nat)
    requires n >= 1 && lo < |words|
    ensures |Range(lo, |words|, n)| > 0 && |SlicesFrom(words, lo, n)| > 0
    ensures SliceFrom(words, SlicesFrom(words, lo, n)[0], Range(lo, |words|, n)[0], n)
  {
  }

  /** Past the first slice, the slices from `lo` are the slices from `lo + n`. */
  lemma SlicesTail<T>(words: seq<T>, lo: nat, n: nat, k: nat)
    requires n >= 1 && 0 < k < |SlicesFrom(words, lo, n)|
    ensures k - 1 < |SlicesFrom(words, lo + n, n)|
    ensures SlicesFrom(words, lo, n)[k] == SlicesFrom(words, lo + n, n)[k - 1]
  {
    var rest := SlicesFrom(words, lo + n, n);
    assert SlicesFrom(words, lo, n) == [words[lo..Min(lo + n, |words|)]] + rest;
  }

  /** Group `k` is the run of words from its start in the range to `n` words
      further, cut at the end of the list. */
  lemma GroupSlice<T>(words: seq<T>, n: nat, k: nat)
    requires n >= 1 && k < |Groups(words, n)|
    ensures 0 <= Range(0, |words|, n)[k] < |words|
    ensures Groups(words, n)[k] == words[Range(0, |words|, n)[k]..Min(Range(0, |words|, n)[k] + n, |words|)]
  {
    SlicesFromIndex(words, 0, n, k);
    assert SliceFrom(words, Groups(words, n)[k], Range(0, |words|, n)[k], n);
  }

  /** Every group holds between one and `n` words, and every group but the last
      holds exactly `n`. */
  lemma GroupSizes<T>(words: seq<T>, n: nat)
    requires n >= 1
    ensures forall k :: 0 <= k < |Groups(words, n)| ==> 1 <= |Groups(words, n)[k]| <= n
    ensures forall k :: 0 <= k < |Groups(words, n)| - 1 ==> |Groups(words, n)[k]| == n
  {
    forall k | 0 <= k < |Groups(words, n)| {
      GroupSize(words, n, k);
    }
  }

  lemma GroupSize<T>(words: seq<T>, n: nat, k: nat)
    requires n >= 1 && k < |Groups(words, n)|
    ensures 1 <= |Groups(words, n)[k]| <= n
    ensures k < |Groups(words, n)| - 1 ==> |Groups(words, n)[k]| == n
  {
    GroupSlice(words, n, k);
    if k < |Groups(words, n)| - 1 {
      RangeStep(0, |words|, n, k);
    }
  }

  /** The chunks for a positive `chunk_size`: every chunk is single-spaced,
      splitting a chunk gives back exactly its word group, there are
      ceil(words / n) of them, and there are none exactly when the text is empty
      or all whitespace. */
  function Chunks(text: string, n: nat): (chunks: seq<string>)
    requires n >= 1
    ensures |chunks| == CeilDiv(|Split(text)|, n)
    ensures forall k :: 0 <= k < |chunks| ==> SingleSpaced(chunks[k])
    ensures forall k :: 0 <= k < |chunks| ==> Split(chunks[k]) == Groups(Split(text), n)[k]
    ensures chunks == [] <==> AllSpace(text)
  {
    var groups := Groups(Split(text), n);
    assert forall k :: 0 <= k < |groups| ==> GroupChunkFacts(groups[k]) by {
      forall k | 0 <= k < |groups| ensures GroupChunkFacts(groups[k]) {
        GroupsAreWords(Split(text), n, k);
        GroupSize(Split(text), n, k);
        GroupChunk(groups[k]);
      }
    }
    assert groups == [] <==> AllSpace(text) by {
      SplitEmptyIff(text);
    }
    seq(|groups|, k requires 0 <= k < |groups| => Join(" ", groups[k]))
  }

  /** What joining a group produces: a single-spaced chunk that splits back
      into the group. */
  predicate GroupChunkFacts(group: seq<string>)
  {
    SingleSpaced(Join(" ", group)) && Split(Join(" ", group)) == group
  }

  lemma GroupChunk(group: seq<string>)
    requires |group| >= 1 && AllWords(group)
    ensures GroupChunkFacts(group)
  {
    JoinIsSingleSpaced(group);
    SplitJoin(group);
  }

  /** A group of words holds only words. */
  lemma GroupsAreWords(words: seq<string>, n: nat, k: nat)
    requires n >= 1 && AllWords(words) && k < |Groups(words, n)|
    ensures AllWords(Groups(words, n)[k])
  {
    GroupSlice(words, n, k);
    var g := Groups(words, n)[k];
    var lo := Range(0, |words|, n)[k];
    forall i | 0 <= i < |g| ensures IsWord(g[i]) {
      assert g[i] == words[lo + i];
    }
  }

  /** `chunk_text` for any integer `chunk_size`: a zero size makes `range`
      raise, a negative one makes the range empty. */
  function ChunkText(text: string, chunkSize: int): (r: Result<seq<string>, ChunkError>)
    ensures chunkSize == 0 <==> r == Failure(ZeroChunkSize)
    ensures chunkSize < 0 ==> r == Success([])
    ensures chunkSize > 0 ==> r == Success(Chunks(text, chunkSize))
  {
    if chunkSize == 0 then Failure(ZeroChunkSize)
    else if chunkSize < 0 then Success([])
    else Success(Chunks(text, chunkSize))
  }

  /** The word groups, concatenated in order, are the words: nothing is lost,
      duplicated or reordered. */
  lemma GroupsPartition<T>(words: seq<T>, n: nat)
    requires n >= 1
    ensures Flatten(Groups(words, n)) == words
  {
    SlicesFromPartition(words, 0, n);
    assert words[0..] == words;
  }

  /** The slices from `lo` on, concatenated in order, are the words from `lo`
      on. */
  ghost predicate CoversFrom<T>(words: seq<T>, lo: nat, n: nat)
    requires n >= 1 && lo <= |words|
  {
    Flatten(SlicesFrom(words, lo, n)) == words[lo..]
  }

  lemma {:induction false} SlicesFromPartition<T>(words: seq<T>, lo: nat, n: nat)
    requires n >= 1 && lo <= |words|
    ensures CoversFrom(words, lo, n)
    decreases |words| - lo
  {
    if lo < |words| {
      if lo + n <= |words| {
        SlicesFromPartition(words, lo + n, n);
        CoversStep(words, lo, n);
      } else {
        CoversLast(words, lo, n);
      }
    }
  }

  /** A full slice followed by slices that cover the rest covers from its
      start. */
  lemma CoversStep<T>(words: seq<T>, lo: nat, n: nat)
    requires n >= 1 && lo + n <= |words| && CoversFrom(words, lo + n, n)
    ensures CoversFrom(words, lo, n)
  {
    PrefixThenRest(words, lo, lo + n, SlicesFrom(words, lo + n, n));
  }

  /** The last slice, cut at the end of the list, covers from its start. */
  lemma CoversLast<T>(words: seq<T>, lo: nat, n: nat)
    requires n >= 1 && lo < |words| < lo + n
    ensures CoversFrom(words, lo, n)
  {
    assert SlicesFrom(words, lo + n, n) == [];
    PrefixThenRest(words, lo, |words|, []);
  }

  /** The slice `words[lo:hi]` followed by pieces that cover the words from
      `hi` on covers the words from `lo` on. */
  lemma PrefixThenRest<T>(words: seq<T>, lo: nat, hi: nat, others: seq<seq<T>>)
    requires lo <= hi <= |words| && Flatten(others) == words[hi..]
    ensures Flatten([words[lo..hi]] + others) == words[lo..]
  {
    var first := words[lo..hi];
    assert ([first] + others)[1..] == others;
    assert words[lo..] == first + words[hi..];
  }

  function Min(a: int, b: int): (m: int)
    ensures m <= a && m <= b && (m == a || m == b)
  {
    if a <= b then a else b
  }

  /** Splitting every chunk and concatenating the word lists, in order, gives
      back exactly the words of the text. */
  lemma ChunksKeepWords(text: string, n: nat)
    requires n >= 1
    ensures var chunks := Chunks(text, n);
      Flatten(seq(|chunks|, k requires 0 <= k < |chunks| => Split(chunks[k]))) == Split(text)
  {
    var chunks := Chunks(text, n);
    var groups := Groups(Split(text), n);
    assert seq(|chunks|, k requires 0 <= k < |chunks| => Split(chunks[k])) == groups;
    GroupsPartition(Split(text), n);
  }

  /** Rejoining all chunks with single spaces is the text with its whitespace
      normalised: leading and trailing whitespace dropped, every inner run
      collapsed to one space. */
  lemma ChunksRejoin(text: string, n: nat)
    requires n >= 1
    ensures Join(" ", Chunks(text, n)) == Join(" ", Split(text))
  {
    var groups := Groups(Split(text), n);
    assert Chunks(text, n) == seq(|groups|, k requires 0 <= k < |groups| => Join(" ", groups[k]));
    JoinOfJoins(" ", groups);
    GroupsPartition(Split(text), n);
  }

  /** Every chunk holds between one and `n` words, and every chunk but the last
      holds exactly `n`. */
  lemma ChunkSizes(text: string, n: nat)
    requires n >= 1
    ensures forall k :: 0 <= k < |Chunks(text, n)| ==> 1 <= |Split(Chunks(text, n)[k])| <= n
    ensures forall k :: 0 <= k < |Chunks(text, n)| - 1 ==> |Split(Chunks(text, n)[k])| == n
  {
    GroupSizes(Split(text), n);
  }

  /** A text of exactly `n` words is one chunk; one word more makes two chunks,
      the second holding the one extra word. */
  lemma ChunkBoundary(text: string, n: nat)
    requires n >= 1
    ensures |Split(text)| == n ==> |Chunks(text, n)| == 1
    ensures |Split(text)| == n + 1 ==>
      |Chunks(text, n)| == 2 && Split(Chunks(text, n)[1]) == [Split(text)[n]]
  {
    var words := Split(text);
    if |words| == n {
      assert CeilDiv(n, n) == 1 + CeilDiv(0, n);
    }
    if |words| == n + 1 {
      assert CeilDiv(n + 1, n) == 1 + CeilDiv(1, n);
      assert CeilDiv(1, n) == 1 + CeilDiv(0, n);
      GroupSlice(words, n, 1);
      RangeStep(0, |words|, n, 0);
    }
  }

  /** No chunk holds a line break: the only whitespace left in a chunk is the
      single space between words. */
  lemma ChunksHaveNoLineBreak(text: string, n: nat)
    requires n >= 1
    ensures forall k :: 0 <= k < |Chunks(text, n)| ==> '\n' !in Chunks(text, n)[k]
  {
    var chunks := Chunks(text, n);
    forall k | 0 <= k < |chunks| ensures '\n' !in chunks[k] {
      var c := chunks[k];
      assert SingleSpaced(c);
      forall i | 0 <= i < |c| ensures c[i] != '\n' {
        if i == |c| - 1 { assert !IsSpace(c[i]); }
      }
    }
  }
}
