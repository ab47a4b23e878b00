/**
 * The incremental reader of the closure stream (`ZiClosureStreamer`). It pulls
 * text chunks from a reader, appends them to a buffer, skips white space at the
 * buffer offset and hands every complete frame found there to a callback,
 * moving the offset past it. A frame that is not complete yet sends it back to
 * the reader; eleven such misses in a row end the stream with an error, a frame
 * whose JSON does not parse ends it with that error, and the reader running dry
 * ends it normally. Once the buffer holds 4096 characters or more, the consumed
 * part before the offset is dropped.
 *
 * The reference for what the reader delivers is `DecodeFrom`: the frames of the
 * whole text, read one after the other from the start, with white space skipped
 * before each.
 */
module StreamClosure {
  import opened Wrappers
  import opened Text
  import opened Json
  import opened Serialization

  /** `SOFT_MAX_ACCUM_BUFFER`: the buffer length at which consumed text is dropped. */
  const SoftMaxAccumBuffer: nat := 4096

  /** The number of consecutive failed parses the reader tolerates. */
  const MaxConsecutiveFailedReads: nat := 10

  /** The text of a sequence of chunks, first to last. */
  function Concat(chunks: seq<string>): string {
    if chunks == [] then "" else chunks[0] + Concat(chunks[1..])
  }

  /**
   * The stream's reader: a fixed sequence of chunks, already decoded to text,
   * handed out one at a time. `next` is the index of the next chunk.
   */
  class ChunkReader {
    const chunks: seq<string>
    var next: nat

    predicate Valid()
      reads this
    {
      next <= |chunks|
    }

    /** The text the reader has yet to hand out. */
    function Unread(): string
      reads this
      requires Valid()
    {
      Concat(chunks[next..])
    }

    constructor (chunks: seq<string>)
      ensures this.chunks == chunks && next == 0 && Valid()
    {
      this.chunks := chunks;
      next := 0;
    }

    /** `reader.read()`: the next chunk, or `None` once the stream is `done`. */
    method Read() returns (chunk: Option<string>)
      requires Valid()
      modifies this
      ensures Valid()
      ensures old(next) < |chunks| ==> chunk == Some(chunks[old(next)]) && next == old(next) + 1
      ensures old(next) == |chunks| ==> chunk == None && next == old(next)
      ensures old(Unread()) == (if chunk.Some? then chunk.value else "") + Unread()
    {
      if next < |chunks| {
        chunk := Some(chunks[next]);
        assert chunks[next..][1..] == chunks[next + 1..];
        next := next + 1;
      } else {
        chunk := None;
      }
    }
  }

  /** What a text decodes to: its entries in order, and the parse error that ends it, if any. */
  datatype Decoded = Decoded(entries: seq<(string, Json)>, error: Option<string>)

  function Prepend(es: seq<(string, Json)>, d: Decoded): Decoded {
    Decoded(es + d.entries, d.error)
  }

  /** Every character of `text[i..j]` is matched by `\s`. */
  predicate AllWs(text: string, i: nat, j: nat)
    requires i <= j <= |text|
  {
    forall k :: i <= k < j ==> IsJsWhitespace(text[k])
  }

  /** The offset past the white space at `o`; it stops at the end of the text. */
  function SkipWs(text: string, o: nat): (p: nat)
    requires o <= |text|
    ensures o <= p <= |text| && AllWs(text, o, p)
    ensures p < |text| ==> !IsJsWhitespace(text[p])
    decreases |text| - o
  {
    if o < |text| && IsJsWhitespace(text[o]) then SkipWs(text, o + 1) else o
  }

  /** The first character that is not white space is where the skip stops. */
  lemma {:induction false} SkipWsIs(text: string, o: nat, p: nat)
    requires o <= p <= |text| && AllWs(text, o, p)
    requires p < |text| ==> !IsJsWhitespace(text[p])
    ensures SkipWs(text, o) == p
    decreases p - o
  {
    if o < p {
      SkipWsIs(text, o + 1, p);
    }
  }

  /**
   * The entries of `text` from `o` on, frame after frame: white space is
   * skipped, an incomplete frame ends the text, a frame whose JSON does not
   * parse ends it with that error.
   */
  function DecodeFrom(text: string, o: nat, parse: string -> Result<Json, string>): Decoded
    requires o <= |text|
    decreases |text| - o, 1
  {
    DecodeAt(text, SkipWs(text, o), parse)
  }

  /** The entries of `text` from the frame at `p` on. */
  function DecodeAt(text: string, p: nat, parse: string -> Result<Json, string>): Decoded
    requires p <= |text|
    decreases |text| - p, 0
  {
    match TryGetEntry(text, p, parse)
    case Failure(e) => Decoded([], Some(e))
    case Success(None) => Decoded([], None)
    case Success(Some(en)) => Prepend([(en.name, en.value)], DecodeFrom(text, en.next, parse))
  }

  /** White space before a frame does not change what is decoded. */
  lemma DecodeSkips(text: string, o: nat, p: nat, parse: string -> Result<Json, string>)
    requires o <= p <= |text| && AllWs(text, o, p)
    ensures DecodeFrom(text, o, parse) == DecodeFrom(text, p, parse)
  {
    var q := SkipWs(text, p);
    assert AllWs(text, o, q) by {
      forall k | o <= k < q
        ensures IsJsWhitespace(text[k])
      {
        if k >= p {
          assert AllWs(text, p, q);
        }
      }
    }
    SkipWsIs(text, o, q);
  }

  /** `buf` is the part of `rest` that starts at `d`: the buffer seen as a window on the whole stream. */
  predicate Window(rest: string, d: nat, buf: string) {
    Agree(buf, 0, rest, d, |buf|)
  }

  lemma WindowAgree(rest: string, d: nat, buf: string, p: nat, n: nat)
    requires Window(rest, d, buf) && p + n <= |buf|
    ensures Agree(buf, p, rest, d + p, n)
  {
    AgreeWithin(buf, 0, rest, d, |buf|, p, d + p, n);
  }

  lemma {:induction false} AgreeSym(b1: string, o1: nat, b2: string, o2: nat, n: nat)
    requires Agree(b1, o1, b2, o2, n)
    ensures Agree(b2, o2, b1, o1, n)
    decreases n
  {
    if n > 0 {
      AgreeSym(b1, o1, b2, o2, n - 1);
    }
  }

  /** White space in the buffer is white space in the stream, and skipping it changes nothing. */
  lemma WindowSkip(rest: string, d: nat, buf: string, o: nat, p: nat, a: nat, b: nat,
                   parse: string -> Result<Json, string>)
    requires Window(rest, d, buf) && o <= p <= |buf| && AllWs(buf, o, p)
    requires a == d + o && b == d + p
    ensures b <= |rest| && DecodeFrom(rest, a, parse) == DecodeFrom(rest, b, parse)
  {
    WindowWs(rest, d, buf, o, p, a, b);
    DecodeSkips(rest, a, b, parse);
  }

  lemma WindowWs(rest: string, d: nat, buf: string, o: nat, p: nat, a: nat, b: nat)
    requires Window(rest, d, buf) && o <= p <= |buf| && AllWs(buf, o, p)
    requires a == d + o && b == d + p
    ensures a <= b <= |rest| && AllWs(rest, a, b)
  {
    forall k | a <= k < b
      ensures IsJsWhitespace(rest[k])
    {
      AgreeAt(buf, 0, rest, d, |buf|, k - d);
    }
  }

  /**
   * A frame that is complete in the buffer, at an offset that is not white
   * space, is read from the stream at the matching position with the same
   * outcome, its end moved by `d`.
   */
  lemma WindowEntryAt(rest: string, d: nat, buf: string, p: nat, a: nat, parse: string -> Result<Json, string>)
    requires Window(rest, d, buf) && p <= |buf| && a == d + p
    requires TryGetEntry(buf, p, parse) != Success(None)
    requires p < |buf| ==> !IsJsWhitespace(buf[p])
    ensures a <= |rest| && SkipWs(rest, a) == a
    ensures TryGetEntry(buf, p, parse).Failure? ==> TryGetEntry(rest, a, parse) == TryGetEntry(buf, p, parse)
    ensures TryGetEntry(buf, p, parse).Success? ==>
              TryGetEntry(rest, a, parse)
              == Success(Some(TryGetEntry(buf, p, parse).value.value.(next := d + TryGetEntry(buf, p, parse).value.value.next)))
  {
    var end := FrameEnd(buf, p).value;
    FrameEndWithin(buf, p);
    WindowAgree(rest, d, buf, p, end - p);
    TryGetEntryAgree(buf, p, rest, a, end, parse);
    AgreeAt(buf, 0, rest, d, |buf|, p);
    SkipWsIs(rest, a, a);
  }

  /** A frame whose JSON fails to parse in the buffer ends what the whole stream decodes to, with that error. */
  lemma WindowFailure(rest: string, d: nat, buf: string, p: nat, a: nat, e: string,
                      parse: string -> Result<Json, string>)
    requires Window(rest, d, buf) && p <= |buf| && a == d + p
    requires TryGetEntry(buf, p, parse) == Failure(e)
    requires p < |buf| ==> !IsJsWhitespace(buf[p])
    ensures a <= |rest| && DecodeFrom(rest, a, parse) == Decoded([], Some(e))
  {
    WindowEntryAt(rest, d, buf, p, a, parse);
  }

  /** A complete frame in the buffer is the next entry the whole stream decodes to. */
  lemma WindowSuccess(rest: string, d: nat, buf: string, p: nat, a: nat, name: string, v: Json, next: nat, b: nat,
                      parse: string -> Result<Json, string>)
    requires Window(rest, d, buf) && p <= |buf| && a == d + p && b == d + next
    requires TryGetEntry(buf, p, parse) == Success(Some(Entry(name, v, next)))
    requires p < |buf| ==> !IsJsWhitespace(buf[p])
    ensures a < b <= |rest| && DecodeFrom(rest, a, parse) == Prepend([(name, v)], DecodeFrom(rest, b, parse))
  {
    WindowEntryAt(rest, d, buf, p, a, parse);
    assert TryGetEntry(rest, a, parse) == Success(Some(Entry(name, v, b)));
    DecodeStep(rest, a, name, v, b, parse);
  }

  /** White space skipped in the buffer, then a complete frame: the next entry the whole stream decodes to. */
  lemma StepSuccess(rest: string, d: nat, buf: string, o: nat, p: nat, a: nat, name: string, v: Json, next: nat, b: nat,
                    parse: string -> Result<Json, string>)
    requires Window(rest, d, buf) && o <= |buf| && p == SkipWs(buf, o) && a == d + o && b == d + next
    requires TryGetEntry(buf, p, parse) == Success(Some(Entry(name, v, next)))
    ensures a < b <= |rest| && DecodeFrom(rest, a, parse) == Prepend([(name, v)], DecodeFrom(rest, b, parse))
  {
    var a' := d + p;
    WindowSkip(rest, d, buf, o, p, a, a', parse);
    WindowSuccess(rest, d, buf, p, a', name, v, next, b, parse);
  }

  /** White space skipped in the buffer, then a frame whose JSON fails to parse: the error the whole stream ends with. */
  lemma StepFailure(rest: string, d: nat, buf: string, o: nat, p: nat, a: nat, e: string,
                    parse: string -> Result<Json, string>)
    requires Window(rest, d, buf) && o <= |buf| && p == SkipWs(buf, o) && a == d + o
    requires TryGetEntry(buf, p, parse) == Failure(e)
    ensures a <= |rest| && DecodeFrom(rest, a, parse) == Decoded([], Some(e))
  {
    var a' := d + p;
    WindowSkip(rest, d, buf, o, p, a, a', parse);
    WindowFailure(rest, d, buf, p, a', e, parse);
  }

  lemma PrependAppend(es: seq<(string, Json)>, fs: seq<(string, Json)>, tail: Decoded)
    ensures Prepend(es, Prepend(fs, tail)) == Prepend(es + fs, tail)
  {
    assert es + (fs + tail.entries) == (es + fs) + tail.entries;
  }

  /** Decoding at a frame that is not preceded by white space: its entry, then what follows it. */
  lemma DecodeStep(text: string, a: nat, name: string, v: Json, b: nat, parse: string -> Result<Json, string>)
    requires a <= |text| && SkipWs(text, a) == a
    requires TryGetEntry(text, a, parse) == Success(Some(Entry(name, v, b)))
    ensures a < b <= |text| && DecodeFrom(text, a, parse) == Prepend([(name, v)], DecodeFrom(text, b, parse))
  {
  }

  /**
   * A buffer that ends where the stream ends and holds no complete frame at
   * `p` after its white space: the stream decodes to nothing more from there.
   */
  predicate Stuck(buf: string, p: nat)
    requires p <= |buf|
  {
    FrameEnd(buf, p).None? && (p < |buf| ==> !IsJsWhitespace(buf[p]))
  }

  /** The windows of two texts at `o1` and `o2` that agree on their first `n` characters. */
  lemma FrameEndCopied(b1: string, o1: nat, b2: string, o2: nat, end: nat)
    requires FrameEnd(b1, o1) == Some(end) && Agree(b1, o1, b2, o2, end - o1)
    ensures FrameEnd(b2, o2).Some?
  {
    var nameLen, e1 := NumberAt(b1, o1).value.0, NumberAt(b1, o1).value.1;
    var entryLen, e2 := NumberAt(b1, e1 + 1 + nameLen).value.0, NumberAt(b1, e1 + 1 + nameLen).value.1;
    FrameEndAgree(b1, o1, b2, o2, end, nameLen, entryLen, e1, e2, e1 - o1 + o2, e2 - o1 + o2);
  }

  lemma FrameEndWithin(buf: string, off: nat)
    requires FrameEnd(buf, off).Some?
    ensures off < FrameEnd(buf, off).value <= |buf|
  {
  }

  /** A buffer that reaches the end of the stream holds a complete frame exactly where the stream does. */
  lemma SuffixFrame(big: string, d: nat, small: string, p: nat, a: nat)
    requires Window(big, d, small) && d + |small| == |big| && p <= |small| && a == d + p
    ensures FrameEnd(small, p).None? <==> FrameEnd(big, a).None?
  {
    if FrameEnd(small, p).Some? {
      var end := FrameEnd(small, p).value;
      FrameEndWithin(small, p);
      WindowAgree(big, d, small, p, end - p);
      FrameEndCopied(small, p, big, d + p, end);
    }
    if FrameEnd(big, d + p).Some? {
      var end := FrameEnd(big, d + p).value;
      FrameEndWithin(big, d + p);
      WindowAgree(big, d, small, p, end - (d + p));
      AgreeSym(small, p, big, d + p, end - (d + p));
      FrameEndCopied(big, d + p, small, p, end);
    }
  }

  /** Dropping the consumed text before a stuck offset leaves it stuck. */
  lemma StuckCompacted(buf: string, off: nat)
    requires off <= |buf| && Stuck(buf, off)
    ensures Stuck(buf[off..], 0)
  {
    AgreeFrom(buf, 0, buf, 0, |buf|);
    WindowCompacted(buf, 0, buf, off);
    SuffixFrame(buf, off, buf[off..], 0, off);
    if off < |buf| {
      assert buf[off..][0] == buf[off];
    }
  }

  /** A stuck buffer that reaches the end of the stream: nothing more is decoded, and without error. */
  lemma StuckAtEnd(rest: string, d: nat, buf: string, off: nat, a: nat, parse: string -> Result<Json, string>)
    requires Window(rest, d, buf) && d + |buf| == |rest| && off <= |buf| && a == d + off
    requires Stuck(buf, off)
    ensures a <= |rest| && DecodeFrom(rest, a, parse) == Decoded([], None)
  {
    SuffixFrame(rest, d, buf, off, a);
    if off < |buf| {
      AgreeAt(buf, 0, rest, d, |buf|, off);
    }
    SkipWsIs(rest, a, a);
  }

  /** Appending what the reader handed out keeps the buffer a window on the stream. */
  lemma WindowGrows(rest: string, d: nat, buf: string, more: string, unread: string)
    requires Window(rest, d, buf) && rest[d + |buf|..] == more + unread
    ensures Window(rest, d, buf + more) && rest[d + |buf + more|..] == unread
  {
    var n := d + |buf|;
    forall i | 0 <= i < |buf + more|
      ensures rest[i - 0 + d] == (buf + more)[i]
    {
      if i < |buf| {
        AgreeAt(buf, 0, rest, d, |buf|, i);
      } else {
        assert (buf + more)[i] == (more + unread)[i - |buf|];
        assert rest[n..][i - |buf|] == rest[d + i];
      }
    }
    AgreeFrom(buf + more, 0, rest, d, |buf + more|);
    assert rest[n + |more|..] == rest[n..][|more|..];
  }

  /** Compaction keeps the unconsumed part of the buffer a window on the stream. */
  lemma WindowCompacted(rest: string, d: nat, buf: string, off: nat)
    requires Window(rest, d, buf) && off <= |buf|
    ensures Window(rest, d + off, buf[off..]) && d + off + |buf[off..]| == d + |buf|
  {
    forall i | 0 <= i < |buf[off..]|
      ensures rest[i - 0 + (d + off)] == buf[off..][i]
    {
      AgreeAt(buf, 0, rest, d, |buf|, off + i);
    }
    AgreeFrom(buf[off..], 0, rest, d + off, |buf[off..]|);
  }

  /** No entry before the last of `es` stops the stream; the stream is stopped exactly when the last one did. */
  predicate StopsAtAbort(abortsOn: (string, Json) -> bool, es: seq<(string, Json)>, stopped: bool) {
    (forall i :: 0 <= i < |es| - 1 ==> !abortsOn(es[i].0, es[i].1))
    && (stopped <==> |es| > 0 && abortsOn(es[|es| - 1].0, es[|es| - 1].1))
  }

  lemma StopsAtAbortAppend(abortsOn: (string, Json) -> bool, es: seq<(string, Json)>, fs: seq<(string, Json)>, stopped: bool)
    requires StopsAtAbort(abortsOn, es, false) && StopsAtAbort(abortsOn, fs, stopped)
    ensures StopsAtAbort(abortsOn, es + fs, stopped)
  {
    if fs == [] {
      assert es + fs == es;
    } else {
      forall i | 0 <= i < |es + fs| - 1
        ensures !abortsOn((es + fs)[i].0, (es + fs)[i].1)
      {
        if i >= |es| {
          assert (es + fs)[i] == fs[i - |es|];
        }
      }
      assert (es + fs)[|es + fs| - 1] == fs[|fs| - 1];
    }
  }

  /** The inner loop's first steps: skip the white space at `off`, then try to read the frame there. */
  method NextEntry(buf: string, off: nat, parse: string -> Result<Json, string>)
    returns (p: nat, next: Result<Option<Entry>, string>)
    requires off <= |buf|
    ensures p == SkipWs(buf, off) && next == TryGetEntry(buf, p, parse)
  {
    p := off;
    while p < |buf| && IsJsWhitespace(buf[p])
      invariant off <= p <= |buf| && SkipWs(buf, p) == SkipWs(buf, off)
    {
      p := p + 1;
    }
    next := TryGetEntry(buf, p, parse);
  }

  lemma SliceAppended<T>(l0: seq<T>, l: seq<T>, n0: nat)
    requires n0 <= |l0| && |l| == |l0| + 1 && l[..|l0|] == l0
    ensures l[n0..] == l0[n0..] + [l[|l0|]] && l[..n0] == l0[..n0]
  {
    assert l == l0 + [l[|l0|]];
  }

  lemma PrependEnd(es: seq<(string, Json)>, e: Option<string>)
    ensures Prepend(es, Decoded([], e)) == Decoded(es, e)
  {
    assert es + [] == es;
  }

  /** A sequence that extends `l0`, sliced at `n0`: the old tail followed by what was added. */
  lemma SliceExtended<T>(l0: seq<T>, l: seq<T>, n0: nat)
    requires n0 <= |l0| <= |l| && l[..|l0|] == l0
    ensures l[n0..] == l0[n0..] + l[|l0|..] && l[..n0] == l0[..n0]
  {
    assert l == l0 + l[|l0|..];
  }

  /**
   * The end of a round of `stream()`: once the buffer has grown to the soft maximum, drop what has
   * been consumed. The window on the stream keeps its end, the offset keeps
   * its place in the stream, and a stuck frame stays stuck.
   */
  method Compact(buf: string, off: nat, ghost rest: string, ghost d: nat, ghost a: nat)
    returns (buf': string, off': nat, ghost d': nat)
    requires Window(rest, d, buf) && off <= |buf| && a == d + off
    ensures Window(rest, d', buf') && off' <= |buf'| && a == d' + off' && d' + |buf'| == d + |buf|
    ensures |buf| >= SoftMaxAccumBuffer ==> buf' == buf[off..] && off' == 0
    ensures |buf| < SoftMaxAccumBuffer ==> buf' == buf && off' == off
    ensures Stuck(buf, off) ==> Stuck(buf', off')
  {
    buf', off', d' := buf, off, d;
    if |buf| >= SoftMaxAccumBuffer {
      WindowCompacted(rest, d, buf, off);
      if Stuck(buf, off) {
        StuckCompacted(buf, off);
      }
      buf', off', d' := buf[off..], 0, d + off;
    }
  }

  /**
   * The log `l0` grew to `l` in one round. If everything delivered since `n0`
   * is what the whole text decodes to ahead of `mid`, and the round delivered
   * what `mid` decodes to ahead of `tail`, then everything delivered since `n0`
   * is what the whole text decodes to ahead of `tail`.
   */
  lemma LogExtends(abortsOn: (string, Json) -> bool, l0: seq<(string, Json)>, l: seq<(string, Json)>, n0: nat,
                   whole: Decoded, mid: Decoded, tail: Decoded, stopped: bool)
    requires n0 <= |l0| <= |l| && l[..|l0|] == l0
    requires whole == Prepend(l0[n0..], mid) && mid == Prepend(l[|l0|..], tail)
    requires StopsAtAbort(abortsOn, l0[n0..], false) && StopsAtAbort(abortsOn, l[|l0|..], stopped)
    ensures l[..n0] == l0[..n0]
    ensures whole == Prepend(l[n0..], tail) && l[n0..] <= whole.entries
    ensures StopsAtAbort(abortsOn, l[n0..], stopped)
    ensures tail.entries == [] ==> whole == Decoded(l[n0..], tail.error)
  {
    SliceExtended(l0, l, n0);
    PrependAppend(l0[n0..], l[|l0|..], tail);
    StopsAtAbortAppend(abortsOn, l0[n0..], l[|l0|..], stopped);
    if tail.entries == [] {
      PrependEnd(l[n0..], tail.error);
    }
  }

  /** What a producer writes for a list of entries: each entry serialized, each followed by `sep`. */
  function Serialized(es: seq<(string, Json)>, sep: string): (text: string)
    ensures es == [] ==> text == ""
  {
    if es == [] then "" else Serialize(es[0].0, es[0].1) + sep + Serialized(es[1..], sep)
  }

  /** A serialized frame starts with a digit, which is never white space. */
  lemma FrameStartsWithDigit(name: string, v: Json)
    ensures |Serialize(name, v)| > 0 && IsDigit(Serialize(name, v)[0])
    ensures !IsJsWhitespace(Serialize(name, v)[0])
  {
    var digits := NatToString(|name|);
    assert Serialize(name, v) == digits + (":" + name + LengthPrefixed(Stringify(v)));
  }

  /** Decoding at a serialized frame yields its entry, then whatever follows the frame. */
  lemma DecodeFrame(pre: string, name: string, v: Json, post: string, parse: string -> Result<Json, string>,
                    o: nat, b: nat)
    requires parse(Stringify(v)) == Success(v)
    requires o == |pre| && b == |pre| + |Serialize(name, v)|
    ensures b <= |pre + Serialize(name, v) + post|
    ensures DecodeFrom(pre + Serialize(name, v) + post, o, parse)
         == Prepend([(name, v)], DecodeFrom(pre + Serialize(name, v) + post, b, parse))
  {
    var f := Serialize(name, v);
    var text := pre + f + post;
    FrameStartsWithDigit(name, v);
    assert text[o] == f[0];
    SkipWsIs(text, o, o);
    SerializeRoundTrip(pre, name, v, post, parse);
    DecodeStep(text, o, name, v, b, parse);
  }

  /**
   * The whole stream round trip: a text made of serialized entries separated
   * by white space decodes to exactly those entries, without error, whatever
   * came before it.
   */
  lemma {:induction false} DecodeSerialized(pre: string, es: seq<(string, Json)>, sep: string,
                                            parse: string -> Result<Json, string>, o: nat)
    requires o == |pre| && AllWs(sep, 0, |sep|)
    requires forall i :: 0 <= i < |es| ==> parse(Stringify(es[i].1)) == Success(es[i].1)
    ensures o <= |pre + Serialized(es, sep)|
    ensures DecodeFrom(pre + Serialized(es, sep), o, parse) == Decoded(es, None)
    decreases |es|
  {
    var text := pre + Serialized(es, sep);
    if es == [] {
      assert text == pre;
      SkipWsIs(text, o, o);
    } else {
      var name, v := es[0].0, es[0].1;
      var f := Serialize(name, v);
      var tail := Serialized(es[1..], sep);
      var pre' := pre + f + sep;
      SerializedCons(pre, es, sep, f, tail, text, pre');
      var b, c := o + |f|, |pre'|;
      DecodeFrame(pre, name, v, sep + tail, parse, o, b);
      SkipSeparator(text, pre + f, sep, tail, parse, b, c);
      DecodeSerialized(pre', es[1..], sep, parse, c);
      HeadTail(es);
    }
  }

  lemma SerializedCons(pre: string, es: seq<(string, Json)>, sep: string, f: string, tail: string,
                       text: string, pre': string)
    requires es != [] && f == Serialize(es[0].0, es[0].1) && tail == Serialized(es[1..], sep)
    requires text == pre + Serialized(es, sep) && pre' == pre + f + sep
    ensures text == pre + f + (sep + tail) && text == pre' + tail
  {
    assert Serialized(es, sep) == f + sep + tail;
    Regroup(pre, f, sep, tail);
  }

  lemma HeadTail<T>(s: seq<T>)
    requires s != []
    ensures [s[0]] + s[1..] == s
  {
  }

  lemma Regroup<T>(a: seq<T>, b: seq<T>, c: seq<T>, d: seq<T>)
    ensures a + (b + c + d) == a + b + (c + d) == a + b + c + d
  {
  }

  /** The white space between two frames is skipped. */
  lemma SkipSeparator(text: string, pre: string, sep: string, post: string, parse: string -> Result<Json, string>,
                      b: nat, c: nat)
    requires text == pre + (sep + post) && b == |pre| && c == b + |sep| && AllWs(sep, 0, |sep|)
    ensures c <= |text| && DecodeFrom(text, b, parse) == DecodeFrom(text, c, parse)
  {
    assert AllWs(text, b, c) by {
      forall k | b <= k < c
        ensures IsJsWhitespace(text[k])
      {
        assert text[k] == sep[k - b];
      }
    }
    DecodeSkips(text, b, c, parse);
  }

  /** What one pass of the inner loop did. */
  datatype StepStatus = Delivered | Incomplete | Failed(error: string)

  datatype Outcome =
    | Returned                       // `stream()` resolved
    | TooManyFailures(count: nat)    // `Failed to parse … times in a row. Aborting.`
    | ParseFailed(message: string)   // the error `JSON.parse` threw

  class ZiClosureStreamer {
    var shouldStream: bool
    const reader: ChunkReader
    /** `JSON.parse` */
    const parse: string -> Result<Json, string>
    /** `tryLookAheadRequiredLength(buffer, offset)`, whose code is not part of this model. */
    const lookAhead: (string, nat) -> Option<nat>
    /** Whether the `onReadEntry` callback calls `abortStream` for an entry. */
    const abortsOn: (string, Json) -> bool
    /** The entries handed to `onReadEntry`, in order. */
    var log: seq<(string, Json)>

    constructor (reader: ChunkReader, parse: string -> Result<Json, string>,
                 lookAhead: (string, nat) -> Option<nat>, abortsOn: (string, Json) -> bool)
      ensures this.reader == reader && this.parse == parse
      ensures this.lookAhead == lookAhead && this.abortsOn == abortsOn
      ensures shouldStream && log == []
    {
      this.reader := reader;
      this.parse := parse;
      this.lookAhead := lookAhead;
      this.abortsOn := abortsOn;
      shouldStream := true;
      log := [];
    }

    /** The look-ahead never knows a required length. */
    ghost predicate NeverLooksAhead() {
      forall b: string, o: nat :: lookAhead(b, o).None?
    }

    method AbortStream()
      modifies this
      ensures !shouldStream && log == old(log)
    {
      shouldStream := false;
    }

    /** `onReadEntry(name, content)`: the entry is recorded, and the callback may abort the stream. */
    method OnReadEntry(name: string, content: Json)
      modifies this
      ensures log == old(log) + [(name, content)]
      ensures shouldStream == (old(shouldStream) && !abortsOn(name, content))
    {
      log := log + [(name, content)];
      if abortsOn(name, content) {
        AbortStream();
      }
    }

    /**
     * The `do … while` of `stream()`: read at least one chunk, and keep
     * reading while a known required length exceeds the buffer's length.
     * `done` is the early return on an exhausted reader.
     */
    method ReadChunks(required: Option<nat>, len0: nat) returns (more: string, done: bool)
      requires reader.Valid()
      modifies reader
      ensures reader.Valid()
      ensures old(reader.Unread()) == more + reader.Unread()
      ensures done ==> reader.next == |reader.chunks|
      ensures !done ==> old(reader.next) < reader.next
      ensures !done && required.Some? ==> len0 + |more| >= required.value
      ensures required.None? && done ==> more == ""
    {
      more, done := "", false;
      var again := true;
      while again
        invariant reader.Valid() && old(reader.next) <= reader.next
        invariant old(reader.Unread()) == more + reader.Unread()
        invariant again && required.None? ==> more == "" && reader.next == old(reader.next)
        invariant !again ==> old(reader.next) < reader.next
        invariant !again && required.Some? ==> len0 + |more| >= required.value
        decreases |reader.chunks| - reader.next, again
      {
        var chunk := reader.Read();
        if chunk.None? {
          done := true;
          return;
        }
        more := more + chunk.value;
        again := required.Some? && len0 + |more| < required.value;
      }
    }

    /**
     * The first half of a round of `stream()`: the failure check (give up
     * after more than ten incomplete reads in a row), the required-length
     * look-ahead and the `do … while` that reads, appending to a buffer that is a window
     * on the stream `rest` at `d` and reaches up to what the reader has yet to
     * hand out. `stop` is the value `stream()` returns here, if it returns.
     */
    method Gather(buf: string, off: nat, failures: nat, ghost rest: string, ghost d: nat, ghost a: nat)
      returns (grown: string, stop: Option<Outcome>)
      requires Window(rest, d, buf) && off <= |buf| && a == d + off
      requires reader.Valid() && reader.Unread() == rest[d + |buf|..]
      requires Stuck(buf, off) && failures <= MaxConsecutiveFailedReads + 1
      modifies reader
      ensures reader.Valid()
      ensures stop.None? ==>
                Window(rest, d, grown) && reader.Unread() == rest[d + |grown|..]
                && |buf| <= |grown| && grown[..|buf|] == buf
                && old(reader.next) < reader.next && failures <= MaxConsecutiveFailedReads
                && (lookAhead(buf, off).Some? ==> |grown| >= lookAhead(buf, off).value)
      ensures stop.Some? ==> stop.value.TooManyFailures? || stop.value.Returned?
      ensures stop.Some? && stop.value.TooManyFailures? ==> stop.value.count == MaxConsecutiveFailedReads + 1
      ensures stop == Some(Returned) ==>
                reader.next == |reader.chunks|
                && (NeverLooksAhead() ==> a <= |rest| && DecodeFrom(rest, a, parse) == Decoded([], None))
    {
      if failures > MaxConsecutiveFailedReads {
        var discarded := reader.Read();
        return buf, Some(TooManyFailures(failures));
      }
      var required := lookAhead(buf, off);
      var more, done := ReadChunks(required, |buf|);
      if done {
        if required.None? {
          StuckAtEnd(rest, d, buf, off, a, parse);
        }
        return buf, Some(Returned);
      }
      WindowGrows(rest, d, buf, more, reader.Unread());
      grown, stop := buf + more, None;
    }

    /**
     * One pass of the inner loop of `stream()` over a buffer that is a window
     * on the stream `rest` at `d`: skip white space, try to read the frame at
     * the offset and, when there is one, hand it to the callback and move past
     * it. `a` and `a'` are the offsets in `rest` of `off` and `off'`.
     */
    method ParseStep(buf: string, off: nat, ghost rest: string, ghost d: nat, ghost a: nat)
      returns (status: StepStatus, off': nat, ghost a': nat)
      requires Window(rest, d, buf) && off <= |buf| && a == d + off
      modifies this
      ensures off' <= |buf| && a' == d + off'
      ensures status.Delivered? ==>
                off < off' && |log| == |old(log)| + 1 && log[..|old(log)|] == old(log)
                && DecodeFrom(rest, a, parse) == Prepend([log[|log| - 1]], DecodeFrom(rest, a', parse))
                && shouldStream == (old(shouldStream) && !abortsOn(log[|log| - 1].0, log[|log| - 1].1))
      ensures !status.Delivered? ==>
                log == old(log) && shouldStream == old(shouldStream)
                && DecodeFrom(rest, a, parse) == DecodeFrom(rest, a', parse)
      ensures status.Incomplete? ==> Stuck(buf, off')
      ensures status.Failed? ==> DecodeFrom(rest, a', parse) == Decoded([], Some(status.error))
    {
      var p, next := NextEntry(buf, off, parse);
      ghost var skipped := d + p;
      if next.Failure? {
        StepFailure(rest, d, buf, off, p, a, next.error, parse);
        WindowSkip(rest, d, buf, off, p, a, skipped, parse);
        return Failed(next.error), p, skipped;
      } else if next.value.None? {
        WindowSkip(rest, d, buf, off, p, a, skipped, parse);
        return Incomplete, p, skipped;
      }
      var name, content, nextOffset := next.value.value.name, next.value.value.value, next.value.value.next;
      ghost var after := d + nextOffset;
      StepSuccess(rest, d, buf, off, p, a, name, content, nextOffset, after, parse);
      OnReadEntry(name, content);
      return Delivered, nextOffset, after;
    }

    /**
     * The inner loop of `stream()`: parse and deliver entries until the
     * stream is aborted, a frame is incomplete (`failures` counts it) or its
     * JSON fails to parse (`err`). `a0` and `a` are the offsets in `rest` of
     * `off0` and `off`.
     */
    method ParseEntries(buf: string, off0: nat, failures0: nat, ghost rest: string, ghost d: nat, ghost a0: nat)
      returns (off: nat, failures: nat, err: Option<string>, ghost a: nat)
      requires Window(rest, d, buf) && off0 <= |buf| && a0 == d + off0 && shouldStream
      modifies this
      ensures off <= |buf| && a == d + off
      ensures |old(log)| <= |log| && log[..|old(log)|] == old(log)
      ensures DecodeFrom(rest, a0, parse) == Prepend(log[|old(log)|..], DecodeFrom(rest, a, parse))
      ensures StopsAtAbort(abortsOn, log[|old(log)|..], !shouldStream)
      ensures err.Some? ==> shouldStream && DecodeFrom(rest, a, parse) == Decoded([], err)
      ensures err.None? && shouldStream ==>
                Stuck(buf, off) && failures == (if |log| == |old(log)| then failures0 + 1 else 1)
      ensures !shouldStream ==> err.None? && failures == 0
    {
      off, failures, err, a := off0, failures0, None, a0;
      ghost var n0 := |log|;
      while shouldStream
        invariant off <= |buf| && a == d + off
        invariant n0 <= |log| && log[..n0] == old(log)
        invariant DecodeFrom(rest, a0, parse) == Prepend(log[n0..], DecodeFrom(rest, a, parse))
        invariant StopsAtAbort(abortsOn, log[n0..], !shouldStream)
        invariant failures == (if |log| == n0 then failures0 else 0)
        invariant |log| == n0 ==> shouldStream
        decreases |buf| - off
      {
        ghost var before := log[n0..];
        ghost var beforeLog := log;
        var status;
        status, off, a := ParseStep(buf, off, rest, d, a);
        if status.Failed? {
          err := Some(status.error);
          return;
        } else if status.Incomplete? {
          failures := failures + 1;
          return;
        }
        failures := 0;
        PrependAppend(before, [log[|log| - 1]], DecodeFrom(rest, a, parse));
        SliceAppended(beforeLog, log, n0);
        StopsAtAbortAppend(abortsOn, before, [log[|log| - 1]], !shouldStream);
      }
    }

    /**
     * The second half of a round of `stream()`: the inner loop, then the compaction; parse and
     * deliver what the buffer holds, then compact it once it has grown to the
     * soft maximum. `err` is a parse error, which ends the stream.
     */
    method Digest(buf: string, off: nat, failures: nat, ghost rest: string, ghost d: nat, ghost a: nat)
      returns (buf': string, off': nat, failures': nat, err: Option<string>, ghost d': nat, ghost a': nat)
      requires Window(rest, d, buf) && off <= |buf| && a == d + off
      requires shouldStream && failures <= MaxConsecutiveFailedReads
      modifies this
      ensures a' <= |rest|
      ensures |old(log)| <= |log| && log[..|old(log)|] == old(log)
      ensures DecodeFrom(rest, a, parse) == Prepend(log[|old(log)|..], DecodeFrom(rest, a', parse))
      ensures StopsAtAbort(abortsOn, log[|old(log)|..], !shouldStream)
      ensures err.Some? ==> shouldStream && DecodeFrom(rest, a', parse) == Decoded([], err)
      ensures err.None? ==>
                Window(rest, d', buf') && off' <= |buf'| && a' == d' + off' && d' + |buf'| == d + |buf|
                && failures' <= MaxConsecutiveFailedReads + 1
                && (shouldStream ==> Stuck(buf', off'))
    {
      off', failures', err, a' := ParseEntries(buf, off, failures, rest, d, a);
      buf', d' := buf, d;
      if err.None? {
        buf', off', d' := Compact(buf, off', rest, d, a');
      }
    }

    /**
     * One round of the outer loop of `stream()`: gather, parse
     * what has arrived, compact. `stop`
     * is the value `stream()` returns in this round, if it returns. `a` and
     * `a'` are the offsets in `rest` of `off` and `off'`.
     */
    method Round(buf: string, off: nat, failures: nat, ghost rest: string, ghost d: nat, ghost a: nat)
      returns (buf': string, off': nat, failures': nat, stop: Option<Outcome>, ghost d': nat, ghost a': nat)
      requires Window(rest, d, buf) && off <= |buf| && a == d + off
      requires reader.Valid() && reader.Unread() == rest[d + |buf|..]
      requires shouldStream && Stuck(buf, off) && failures <= MaxConsecutiveFailedReads + 1
      modifies this, reader
      ensures reader.Valid() && a' <= |rest|
      ensures |old(log)| <= |log| && log[..|old(log)|] == old(log)
      ensures DecodeFrom(rest, a, parse) == Prepend(log[|old(log)|..], DecodeFrom(rest, a', parse))
      ensures StopsAtAbort(abortsOn, log[|old(log)|..], !shouldStream)
      ensures stop.None? ==>
                Window(rest, d', buf') && off' <= |buf'| && a' == d' + off'
                && reader.Unread() == rest[d' + |buf'|..] && old(reader.next) < reader.next
                && failures' <= MaxConsecutiveFailedReads + 1
                && (shouldStream ==> Stuck(buf', off'))
      ensures stop.Some? ==> shouldStream
      ensures stop.Some? && stop.value.TooManyFailures? ==>
                stop.value.count == MaxConsecutiveFailedReads + 1 && log == old(log) && a' == a
      ensures stop == Some(Returned) ==>
                reader.next == |reader.chunks|
                && (NeverLooksAhead() ==> DecodeFrom(rest, a', parse) == Decoded([], None))
      ensures stop.Some? && stop.value.ParseFailed? ==>
                DecodeFrom(rest, a', parse) == Decoded([], Some(stop.value.message))
    {
      var grown;
      grown, stop := Gather(buf, off, failures, rest, d, a);
      if stop.Some? {
        assert log[|log|..] == [];
        return buf, off, failures, stop, d, a;
      }
      ghost var unread := reader.Unread();
      var err;
      buf', off', failures', err, d', a' := Digest(grown, off, failures, rest, d, a);
      assert reader.Unread() == unread;
      if err.Some? {
        return buf', off', failures', Some(ParseFailed(err.value)), d', a';
      }
    }

    /**
     * `stream()`. `rest` is everything the reader has yet to hand out when the
     * stream starts. The entries handed to the callback are the ones the whole
     * of `rest` decodes to, in order, up to where the stream stopped; a parse
     * error is the one the whole text meets after them.
     */
    method Stream() returns (r: Outcome)
      requires reader.Valid()
      modifies this, reader
      ensures reader.Valid()
      ensures |old(log)| <= |log| && log[..|old(log)|] == old(log)
      ensures log[|old(log)|..] <= DecodeFrom(old(reader.Unread()), 0, parse).entries
      ensures r.ParseFailed? ==> DecodeFrom(old(reader.Unread()), 0, parse) == Decoded(log[|old(log)|..], Some(r.message))
      ensures r.TooManyFailures? ==> r.count == MaxConsecutiveFailedReads + 1 && shouldStream
      ensures StopsAtAbort(abortsOn, log[|old(log)|..], !shouldStream)
      ensures !shouldStream ==> r == Returned
      ensures r == Returned && shouldStream ==> reader.next == |reader.chunks|
      ensures r == Returned && shouldStream && NeverLooksAhead() ==>
                DecodeFrom(old(reader.Unread()), 0, parse) == Decoded(log[|old(log)|..], None)
    {
      shouldStream := true;
      var buf: string, off: nat, failures: nat := "", 0, 0;
      ghost var rest := reader.Unread();
      ghost var d: nat, a: nat := 0, 0;
      ghost var n0 := |log|;
      while shouldStream
        invariant reader.Valid()
        invariant Window(rest, d, buf) && off <= |buf| && a == d + off
        invariant reader.Unread() == rest[d + |buf|..]
        invariant n0 <= |log| && log[..n0] == old(log)
        invariant DecodeFrom(rest, 0, parse) == Prepend(log[n0..], DecodeFrom(rest, a, parse))
        invariant StopsAtAbort(abortsOn, log[n0..], !shouldStream)
        invariant failures <= MaxConsecutiveFailedReads + 1
        invariant shouldStream ==> Stuck(buf, off)
        decreases |reader.chunks| - reader.next
      {
        ghost var logBefore, a0 := log, a;
        var stop;
        buf, off, failures, stop, d, a := Round(buf, off, failures, rest, d, a);
        LogExtends(abortsOn, logBefore, log, n0, DecodeFrom(rest, 0, parse), DecodeFrom(rest, a0, parse),
                   DecodeFrom(rest, a, parse), !shouldStream);
        if stop.Some? {
          return stop.value;
        }
      }
      return Returned;
    }
  }

  /**
   * End to end: a producer serializes `es`, with white space `sep` after each
   * entry, and the text arrives in `chunks`, split anywhere. A fresh streamer
   * never reports a parse error and delivers a prefix of `es`; when it returns
   * with no entry aborting it and no look-ahead, it has delivered all of `es`.
   */
  method StreamSerialized(chunks: seq<string>, es: seq<(string, Json)>, sep: string,
                          parse: string -> Result<Json, string>, lookAhead: (string, nat) -> Option<nat>,
                          abortsOn: (string, Json) -> bool)
    returns (r: Outcome, delivered: seq<(string, Json)>)
    requires Concat(chunks) == Serialized(es, sep) && AllWs(sep, 0, |sep|)
    requires forall i :: 0 <= i < |es| ==> parse(Stringify(es[i].1)) == Success(es[i].1)
    ensures delivered <= es && !r.ParseFailed?
    ensures (r.Returned? && (forall b: string, o: nat :: lookAhead(b, o).None?) &&
             (forall i :: 0 <= i < |es| ==> !abortsOn(es[i].0, es[i].1))) ==> delivered == es
  {
    var reader := new ChunkReader(chunks);
    assert chunks[0..] == chunks;
    var streamer := new ZiClosureStreamer(reader, parse, lookAhead, abortsOn);
    DecodeSerialized("", es, sep, parse, 0);
    assert "" + Serialized(es, sep) == Serialized(es, sep);
    r := streamer.Stream();
    delivered := streamer.log;
    assert delivered[0..] == delivered;
    if !streamer.shouldStream && delivered != [] {
      assert delivered[|delivered| - 1] == es[|delivered| - 1];
    }
  }
}
