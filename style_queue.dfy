/**
 * The span list of the parley example turned into one text and a queue of
 * (style, byte range) pairs for the ranged layout builder.
 *
 * A Rust `&str` is UTF-8 and `len()` counts bytes, so text is a sequence of
 * bytes here and the ranges are byte ranges.
 */
module StyleQueue {
  import opened Bytes

  type Utf8 = seq<byte>

  /** A span: a text fragment and the styles applied to all of it. */
  datatype Span<S> = Span(text: Utf8, styles: seq<S>)

  /** The half-open byte range `start..end`. */
  datatype Range = Range(start: nat, end: nat)

  /** One entry of the style queue. */
  datatype Entry<S> = Entry(style: S, range: Range)

  /** A UTF-8 continuation byte, `10xx_xxxx`. */
  predicate IsContinuation(b: byte)
  {
    0x80 <= b < 0xC0
  }

  /** `str::is_char_boundary`: the ends of the text and every byte that starts a character. */
  predicate IsCharBoundary(t: Utf8, idx: nat)
  {
    idx == 0 || idx == |t| || (idx < |t| && !IsContinuation(t[idx]))
  }

  /** `String::insert_str(idx, s)`, which panics unless `idx` is a char boundary. */
  function InsertStr(t: Utf8, idx: nat, s: Utf8): (r: Utf8)
    requires IsCharBoundary(t, idx)
    ensures |r| == |t| + |s|
    ensures r[..idx] == t[..idx] && r[idx..idx + |s|] == s && r[idx + |s|..] == t[idx..]
  {
    t[..idx] + s + t[idx..]
  }

  /** Inserting at the end of the text is appending to it. */
  lemma InsertAtEndAppends(t: Utf8, s: Utf8)
    ensures InsertStr(t, |t|, s) == t + s
  {
    var r := InsertStr(t, |t|, s);
    assert r[..|t|] == t;
    assert r[|t|..] == s;
    assert r == r[..|t|] + r[|t|..];
  }

  /** The texts of all spans, in order. */
  function Concat<S>(spans: seq<Span<S>>): Utf8
  {
    if spans == [] then [] else Concat(spans[..|spans| - 1]) + spans[|spans| - 1].text
  }

  /** The range of span `k` in the text: from the text length before it, for its own length. */
  function SpanRange<S>(spans: seq<Span<S>>, k: nat): Range
    requires k < |spans|
  {
    var start := |Concat(spans[..k])|;
    Range(start, start + |spans[k].text|)
  }

  /** Every style of `styles`, in order, paired with `range`. */
  function Tag<S>(styles: seq<S>, range: Range): seq<Entry<S>>
  {
    seq(|styles|, m requires 0 <= m < |styles| => Entry(styles[m], range))
  }

  /** The queue the span loop produces: span after span, each span's styles tagged with its range. */
  function Queue<S>(spans: seq<Span<S>>): seq<Entry<S>>
  {
    if spans == [] then []
    else Queue(spans[..|spans| - 1]) + Tag(spans[|spans| - 1].styles, SpanRange(spans, |spans| - 1))
  }

  /** The number of styles over all spans. */
  function StyleCount<S>(spans: seq<Span<S>>): nat
  {
    if spans == [] then 0 else StyleCount(spans[..|spans| - 1]) + |spans[|spans| - 1].styles|
  }

  /** The span loop of the example's `main`. */
  method BuildStyleQueue<S>(spans: seq<Span<S>>) returns (fullText: Utf8, queue: seq<Entry<S>>)
    ensures fullText == Concat(spans)
    ensures queue == Queue(spans)
  {
    fullText, queue := [], [];
    var n := 0;
    while n < |spans|
      invariant n <= |spans|
      invariant fullText == Concat(spans[..n])
      invariant queue == Queue(spans[..n])
    {
      var s := spans[n].text;
      var rangeStart := |fullText|;
      var rangeEnd := rangeStart + |s|;
      fullText := InsertStr(fullText, rangeStart, s);
      InsertAtEndAppends(Concat(spans[..n]), s);
      assert spans[..n + 1][..n] == spans[..n];
      ghost var range := SpanRange(spans[..n + 1], n);
      assert range == Range(rangeStart, rangeEnd);
      var styles := spans[n].styles;
      var m := 0;
      while m < |styles|
        invariant m <= |styles|
        invariant queue == Queue(spans[..n]) + Tag(styles[..m], range)
      {
        assert Tag(styles[..m + 1], range) == Tag(styles[..m], range) + [Entry(styles[m], range)];
        queue := queue + [Entry(styles[m], Range(rangeStart, rangeEnd))];
        m := m + 1;
      }
      assert styles[..m] == styles;
      n := n + 1;
    }
    assert spans[..n] == spans;
  }

  /** The text of the first `k` spans is a prefix of the whole text. */
  lemma {:induction false} ConcatPrefix<S>(spans: seq<Span<S>>, k: nat)
    requires k <= |spans|
    ensures Concat(spans[..k]) <= Concat(spans)
  {
    if k < |spans| {
      var init := spans[..|spans| - 1];
      assert init[..k] == spans[..k];
      ConcatPrefix(init, k);
    } else {
      assert spans[..k] == spans;
    }
  }

  /** The text up to and including span `k` is the text before it followed by its text. */
  lemma ConcatStep<S>(spans: seq<Span<S>>, k: nat)
    requires k < |spans|
    ensures Concat(spans[..k + 1]) == Concat(spans[..k]) + spans[k].text
  {
    assert spans[..k + 1][..k] == spans[..k];
  }

  /** Each span's range picks out exactly that span's text from the full text. */
  lemma SpanRangeText<S>(spans: seq<Span<S>>, k: nat)
    requires k < |spans|
    ensures SpanRange(spans, k).start <= SpanRange(spans, k).end <= |Concat(spans)|
    ensures Concat(spans)[SpanRange(spans, k).start..SpanRange(spans, k).end] == spans[k].text
  {
    ConcatStep(spans, k);
    ConcatPrefix(spans, k + 1);
  }

  /** Consecutive spans have adjacent ranges, the first starts at 0 and the last ends at the text length. */
  lemma SpanRangesTile<S>(spans: seq<Span<S>>)
    ensures forall k :: 0 <= k < |spans| - 1 ==> SpanRange(spans, k).end == SpanRange(spans, k + 1).start
    ensures |spans| > 0 ==> SpanRange(spans, 0).start == 0
    ensures |spans| > 0 ==> SpanRange(spans, |spans| - 1).end == |Concat(spans)|
  {
    forall k | 0 <= k < |spans| - 1
      ensures SpanRange(spans, k).end == SpanRange(spans, k + 1).start
    {
      ConcatStep(spans, k);
    }
    if |spans| > 0 {
      assert spans[..0] == [];
    }
  }

  /** The queue holds one entry per style of every span. */
  lemma {:induction false} QueueLength<S>(spans: seq<Span<S>>)
    ensures |Queue(spans)| == StyleCount(spans)
  {
    if spans != [] {
      QueueLength(spans[..|spans| - 1]);
    }
  }

  /**
   * Style `m` of span `k` sits at position StyleCount(spans[..k]) + m of the
   * queue and carries exactly that span's range: span order first, then
   * style order within a span, and a span without styles adds nothing.
   */
  lemma {:induction false} QueueAt<S>(spans: seq<Span<S>>, k: nat, m: nat)
    requires k < |spans| && m < |spans[k].styles|
    ensures StyleCount(spans[..k]) + m < |Queue(spans)|
    ensures Queue(spans)[StyleCount(spans[..k]) + m] == Entry(spans[k].styles[m], SpanRange(spans, k))
  {
    var last := |spans| - 1;
    var init := spans[..last];
    QueueLength(spans);
    QueueLength(init);
    if k == last {
      assert init == spans[..k];
    } else {
      assert init[..k] == spans[..k];
      QueueAt(init, k, m);
      ConcatPrefix(spans, k + 1);
      assert Queue(init)[StyleCount(spans[..k]) + m] == Entry(spans[k].styles[m], SpanRange(init, k));
    }
  }

  /** Every range in the queue is a valid range of the full text. */
  lemma {:induction false} QueueRangesInBounds<S>(spans: seq<Span<S>>)
    ensures forall q :: 0 <= q < |Queue(spans)| ==>
      Queue(spans)[q].range.start <= Queue(spans)[q].range.end <= |Concat(spans)|
  {
    if spans != [] {
      var init := spans[..|spans| - 1];
      QueueRangesInBounds(init);
    }
  }
}
