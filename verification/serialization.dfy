/**
 * The length-prefixed frame format of the closure stream: an entry is written
 * as `<n>:<name><m>:<json>`, where `n` is the length of the name and `m` the
 * length of the JSON text of the value. Lengths are counted in characters
 * (Unicode scalar values), where JavaScript counts UTF-16 code units: the two
 * agree on text with no character outside the Basic Multilingual Plane.
 *
 * `JSON.parse` is a parameter `parse`; it may fail (throw), which is the
 * `Failure` of its result. The round-trip lemmas assume that it inverts
 * `Stringify` on the value at hand.
 */
module Serialization {
  import opened Wrappers
  import opened Text
  import opened Json

  /** A text prefixed by its decimal length and ':'. */
  function LengthPrefixed(s: string): string {
    NatToString(|s|) + ":" + s
  }

  /** The frame of a name and a JSON text: each prefixed by its length. */
  function Frame(name: string, json: string): string {
    LengthPrefixed(name) + LengthPrefixed(json)
  }

  /**
   * `serializeStreamEntry(name, obj)`: exactly one complete frame, whose first
   * length is that of the name.
   */
  function Serialize(name: string, v: Json): (s: string)
    ensures NumberAt(s, 0) == Some((|name|, |NatToString(|name|)|))
    ensures FrameEnd(s, 0) == Some(|s|)
  {
    var f := Frame(name, Stringify(v));
    FrameComplete(f, name, Stringify(v));
    f
  }

  /** The index of the first ':' at or after `i`, or `|buf|` when there is none. */
  function ColonFrom(buf: string, i: nat): (e: nat)
    requires i <= |buf|
    ensures i <= e <= |buf|
    ensures e < |buf| ==> buf[e] == ':'
    decreases |buf| - i
  {
    if i == |buf| || buf[i] == ':' then i else ColonFrom(buf, i + 1)
  }

  /** The first ':' is the one with no ':' before it. */
  lemma {:induction false} ColonFromIs(buf: string, i: nat, e: nat)
    requires i <= e <= |buf| && (e < |buf| ==> buf[e] == ':')
    requires forall j :: i <= j < e ==> buf[j] != ':'
    ensures ColonFrom(buf, i) == e
    decreases e - i
  {
    if i < e {
      ColonFromIs(buf, i + 1, e);
    }
  }

  /** Nothing before the first ':' is a ':'. */
  lemma {:induction false} ColonFromFirst(buf: string, i: nat)
    requires i <= |buf|
    ensures forall j :: i <= j < ColonFrom(buf, i) ==> buf[j] != ':'
    decreases |buf| - i
  {
    if i < |buf| && buf[i] != ':' {
      ColonFromFirst(buf, i + 1);
    }
  }

  /** Every character of `buf[i..j]` is a decimal digit. */
  predicate DigitsBetween(buf: string, i: nat, j: nat)
    requires i <= j <= |buf|
    decreases j - i
  {
    j == i || (IsDigit(buf[j - 1]) && DigitsBetween(buf, i, j - 1))
  }

  /** The value of the digits `buf[i..j]`, most significant first. */
  function ValueBetween(buf: string, i: nat, j: nat): nat
    requires i <= j <= |buf| && DigitsBetween(buf, i, j)
    decreases j - i
  {
    if j == i then 0 else ValueBetween(buf, i, j - 1) * 10 + DigitValue(buf[j - 1])
  }

  lemma {:induction false} ValueBetweenSlice(buf: string, i: nat, j: nat)
    requires i <= j <= |buf|
    ensures DigitsBetween(buf, i, j) <==> AllDigits(buf[i..j])
    ensures DigitsBetween(buf, i, j) ==> ValueBetween(buf, i, j) == DigitsValue(buf[i..j])
    decreases j - i
  {
    if i < j {
      ValueBetweenSlice(buf, i, j - 1);
      var span := buf[i..j];
      assert span[..j - 1 - i] == buf[i..j - 1];
      assert span[j - 1 - i] == buf[j - 1];
      assert AllDigits(span) <==> AllDigits(span[..j - 1 - i]) && IsDigit(span[j - 1 - i]) by {
        if AllDigits(span[..j - 1 - i]) && IsDigit(span[j - 1 - i]) {
          forall k | 0 <= k < |span|
            ensures IsDigit(span[k])
          {
            if k < j - 1 - i {
              assert span[k] == span[..j - 1 - i][k];
            }
          }
        }
      }
    }
  }

  /**
   * `accumulateNumber(buffer, offset)`: the value of the span from `offset`
   * up to the first ':' and the index of that ':'. There is none when the
   * buffer has no ':' at or after `offset` or when the span is empty.
   * `Number(span)` is read here on spans of decimal digits only, and any
   * other span counts as not a number; JavaScript's `Number` also accepts
   * surrounding white space, a sign, a fraction, an exponent and hexadecimal,
   * octal and binary literals.
   */
  function NumberAt(buf: string, off: nat): (r: Option<(nat, nat)>)
    ensures r.Some? ==> off < r.value.1 < |buf| && buf[r.value.1] == ':'
  {
    if off >= |buf| then None
    else
      var e := ColonFrom(buf, off);
      if e >= |buf| || e == off || !DigitsBetween(buf, off, e) then None
      else Some((ValueBetween(buf, off, e), e))
  }

  /** `accumulateNumber` step by step: its loop finds the colon, then the span is read. */
  method AccumulateNumber(buffer: string, offset: nat) returns (r: Option<(nat, nat)>)
    ensures r == NumberAt(buffer, offset)
  {
    var endIdx := offset;
    while endIdx < |buffer| && buffer[endIdx] != ':'
      invariant offset <= endIdx && (offset <= |buffer| ==> endIdx <= |buffer|)
      invariant offset <= |buffer| ==> ColonFrom(buffer, endIdx) == ColonFrom(buffer, offset)
      decreases |buffer| - endIdx
    {
      endIdx := endIdx + 1;
    }
    if endIdx >= |buffer| || endIdx == offset {
      return None;
    }
    var span := buffer[offset..endIdx];
    ValueBetweenSlice(buffer, offset, endIdx);
    if !AllDigits(span) {
      return None;
    }
    return Some((DigitsValue(span), endIdx));
  }

  /** What a successful read means: the colon is the first one and the span is its digits. */
  lemma NumberAtMeaning(buf: string, off: nat)
    requires NumberAt(buf, off).Some?
    ensures forall j :: off <= j < NumberAt(buf, off).value.1 ==> buf[j] != ':'
    ensures AllDigits(buf[off..NumberAt(buf, off).value.1])
    ensures NumberAt(buf, off).value.0 == DigitsValue(buf[off..NumberAt(buf, off).value.1])
  {
    ColonFromFirst(buf, off);
    ValueBetweenSlice(buf, off, NumberAt(buf, off).value.1);
  }

  /** Conversely, a non-empty decimal span closed by ':' is read back as its value. */
  lemma NumberAtDigits(buf: string, off: nat, d: string)
    requires |d| > 0 && AllDigits(d) && off + |d| < |buf|
    requires buf[off..off + |d|] == d && buf[off + |d|] == ':'
    ensures NumberAt(buf, off) == Some((DigitsValue(d), off + |d|))
  {
    forall j | off <= j < off + |d|
      ensures buf[j] != ':'
    {
      assert buf[j] == d[j - off];
    }
    ColonFromIs(buf, off, off + |d|);
    ValueBetweenSlice(buf, off, off + |d|);
  }

  /** Without a ':' at or after `off` there is no number. */
  lemma NumberAtNoColon(buf: string, off: nat)
    requires forall j :: off <= j < |buf| ==> buf[j] != ':'
    ensures NumberAt(buf, off).None?
  {
  }

  /** A parsed entry: its name, its value and the offset just past it. */
  datatype Entry = Entry(name: string, value: Json, next: nat)

  /** The end of the frame at `off` once both lengths are read and the whole frame is buffered. */
  function FrameEnd(buf: string, off: nat): Option<nat> {
    match NumberAt(buf, off)
    case None => None
    case Some((nameLen, e1)) =>
      match NumberAt(buf, e1 + 1 + nameLen)
      case None => None
      case Some((entryLen, e2)) =>
        if |buf| < e2 + 1 + entryLen then None else Some(e2 + 1 + entryLen)
  }

  /**
   * `tryGetEntryFromString(buffer, offset)`: `Success(None)` is the `null` the
   * source returns while the entry is not complete; `Failure` is a throwing
   * `JSON.parse`.
   */
  function TryGetEntry(buf: string, off: nat, parse: string -> Result<Json, string>): (r: Result<Option<Entry>, string>)
    ensures r == Success(None) <==> FrameEnd(buf, off).None?
    ensures r.Success? && r.value.Some? ==> r.value.value.next == FrameEnd(buf, off).value
    ensures r.Success? && r.value.Some? ==> off < r.value.value.next <= |buf|
  {
    match NumberAt(buf, off)
    case None => Success(None)
    case Some((nameLen, e1)) =>
      match NumberAt(buf, e1 + 1 + nameLen)
      case None => Success(None)
      case Some((entryLen, e2)) =>
        if |buf| < e2 + 1 + entryLen then Success(None)
        else
          var name := buf[e1 + 1..e1 + 1 + nameLen];
          match parse(buf[e2 + 1..e2 + 1 + entryLen])
          case Failure(err) => Failure(err)
          case Success(v) => Success(Some(Entry(name, v, e2 + 1 + entryLen)))
  }

  /** `b2` from `o2` holds the same `n` characters as `b1` from `o1` (compared from the last one down). */
  predicate Agree(b1: string, o1: nat, b2: string, o2: nat, n: nat)
    decreases n
  {
    o1 + n <= |b1| && o2 + n <= |b2|
    && (n == 0 || (b2[o2 + n - 1] == b1[o1 + n - 1] && Agree(b1, o1, b2, o2, n - 1)))
  }

  lemma {:induction false} AgreeAt(b1: string, o1: nat, b2: string, o2: nat, n: nat, k: nat)
    requires Agree(b1, o1, b2, o2, n) && k < n
    ensures b2[o2 + k] == b1[o1 + k]
    decreases n
  {
    if k < n - 1 {
      AgreeAt(b1, o1, b2, o2, n - 1, k);
    }
  }

  lemma {:induction false} AgreeFrom(b1: string, o1: nat, b2: string, o2: nat, n: nat)
    requires o1 + n <= |b1| && o2 + n <= |b2|
    requires forall i :: o1 <= i < o1 + n ==> b2[i - o1 + o2] == b1[i]
    ensures Agree(b1, o1, b2, o2, n)
    decreases n
  {
    if n > 0 {
      AgreeFrom(b1, o1, b2, o2, n - 1);
      assert b2[(o1 + n - 1) - o1 + o2] == b1[o1 + n - 1];
    }
  }

  /** Any window inside two agreeing windows agrees too. */
  lemma AgreeWithin(b1: string, o1: nat, b2: string, o2: nat, n: nat, p1: nat, p2: nat, m: nat)
    requires Agree(b1, o1, b2, o2, n)
    requires o1 <= p1 && p1 + m <= o1 + n && p2 == p1 - o1 + o2
    ensures Agree(b1, p1, b2, p2, m)
  {
    forall i | p1 <= i < p1 + m
      ensures b2[i - p1 + p2] == b1[i]
    {
      AgreeAt(b1, o1, b2, o2, n, i - o1);
    }
    AgreeFrom(b1, p1, b2, p2, m);
  }

  lemma {:induction false} ValueBetweenAgree(b1: string, o1: nat, b2: string, o2: nat, n: nat, j1: nat, j2: nat)
    requires Agree(b1, o1, b2, o2, n) && j1 == o1 + n && j2 == o2 + n
    ensures DigitsBetween(b1, o1, j1) <==> DigitsBetween(b2, o2, j2)
    ensures DigitsBetween(b1, o1, j1) ==> ValueBetween(b1, o1, j1) == ValueBetween(b2, o2, j2)
    decreases n
  {
    if n > 0 {
      ValueBetweenAgree(b1, o1, b2, o2, n - 1, j1 - 1, j2 - 1);
    }
  }

  /** A number read inside a window is read the same from any copy of the window. */
  lemma NumberAtAgree(b1: string, o1: nat, b2: string, o2: nat, n: nat, v: nat, e: nat, e': nat)
    requires NumberAt(b1, o1) == Some((v, e)) && e < o1 + n && e' == e - o1 + o2
    requires Agree(b1, o1, b2, o2, n)
    ensures NumberAt(b2, o2) == Some((v, e'))
  {
    ColonFromFirst(b1, o1);
    forall j | o2 <= j < e'
      ensures b2[j] != ':'
    {
      AgreeAt(b1, o1, b2, o2, n, j - o2);
    }
    AgreeAt(b1, o1, b2, o2, n, e - o1);
    ColonFromIs(b2, o2, e');
    AgreeWithin(b1, o1, b2, o2, n, o1, o2, e - o1);
    ValueBetweenAgree(b1, o1, b2, o2, e - o1, e, e');
  }

  lemma SliceAgree(b1: string, o1: nat, b2: string, o2: nat, n: nat, i: nat, j: nat, i2: nat, j2: nat)
    requires Agree(b1, o1, b2, o2, n) && o1 <= i <= j <= o1 + n
    requires i2 == i - o1 + o2 && j2 == j - o1 + o2
    ensures b2[i2..j2] == b1[i..j]
  {
    forall k | 0 <= k < j - i
      ensures b2[i2..j2][k] == b1[i..j][k]
    {
      AgreeAt(b1, o1, b2, o2, n, i + k - o1);
    }
  }

  /** The two length prefixes of a frame are read the same from any copy of the frame. */
  lemma FrameEndAgree(b1: string, o1: nat, b2: string, o2: nat, end: nat,
                      nameLen: nat, entryLen: nat, e1: nat, e2: nat, e1': nat, e2': nat)
    requires FrameEnd(b1, o1) == Some(end) && Agree(b1, o1, b2, o2, end - o1)
    requires NumberAt(b1, o1) == Some((nameLen, e1)) && NumberAt(b1, e1 + 1 + nameLen) == Some((entryLen, e2))
    requires e1' == e1 - o1 + o2 && e2' == e2 - o1 + o2
    ensures NumberAt(b2, o2) == Some((nameLen, e1')) && NumberAt(b2, e1' + 1 + nameLen) == Some((entryLen, e2'))
    ensures end == e2 + 1 + entryLen && e2' + 1 + entryLen <= |b2|
    ensures FrameEnd(b2, o2) == Some(end - o1 + o2)
  {
    var p, p' := e1 + 1 + nameLen, e1' + 1 + nameLen;
    NumberAtAgree(b1, o1, b2, o2, end - o1, nameLen, e1, e1');
    AgreeWithin(b1, o1, b2, o2, end - o1, p, p', end - p);
    NumberAtAgree(b1, p, b2, p', end - p, entryLen, e2, e2');
  }

  /** What a copy of a whole frame shares with it: both length prefixes, the name and the JSON text. */
  lemma FrameAgreeFacts(b1: string, o1: nat, b2: string, o2: nat, end: nat,
                        nameLen: nat, entryLen: nat, e1: nat, e2: nat, e1': nat, e2': nat)
    requires FrameEnd(b1, o1) == Some(end) && Agree(b1, o1, b2, o2, end - o1)
    requires NumberAt(b1, o1) == Some((nameLen, e1)) && NumberAt(b1, e1 + 1 + nameLen) == Some((entryLen, e2))
    requires e1' == e1 - o1 + o2 && e2' == e2 - o1 + o2
    ensures NumberAt(b2, o2) == Some((nameLen, e1')) && NumberAt(b2, e1' + 1 + nameLen) == Some((entryLen, e2'))
    ensures e2 + 1 + entryLen <= |b1| && e2' + 1 + entryLen <= |b2|
    ensures b2[e1' + 1..e1' + 1 + nameLen] == b1[e1 + 1..e1 + 1 + nameLen]
    ensures b2[e2' + 1..e2' + 1 + entryLen] == b1[e2 + 1..e2 + 1 + entryLen]
    ensures FrameEnd(b2, o2) == Some(end - o1 + o2) && end - o1 + o2 == e2' + 1 + entryLen
  {
    FrameEndAgree(b1, o1, b2, o2, end, nameLen, entryLen, e1, e2, e1', e2');
    SliceAgree(b1, o1, b2, o2, end - o1, e1 + 1, e1 + 1 + nameLen, e1' + 1, e1' + 1 + nameLen);
    SliceAgree(b1, o1, b2, o2, end - o1, e2 + 1, e2 + 1 + entryLen, e2' + 1, e2' + 1 + entryLen);
  }

  /** Two buffers whose length prefixes read alike and whose name and JSON spans hold the same text give the same entry. */
  lemma TryGetEntrySame(b1: string, o1: nat, b2: string, o2: nat, parse: string -> Result<Json, string>,
                        nameLen: nat, entryLen: nat, e1: nat, e2: nat, e1': nat, e2': nat, end2: nat)
    requires NumberAt(b1, o1) == Some((nameLen, e1)) && NumberAt(b1, e1 + 1 + nameLen) == Some((entryLen, e2))
    requires NumberAt(b2, o2) == Some((nameLen, e1')) && NumberAt(b2, e1' + 1 + nameLen) == Some((entryLen, e2'))
    requires end2 == e2' + 1 + entryLen
    requires e2 + 1 + entryLen <= |b1| && e2' + 1 + entryLen <= |b2|
    requires b2[e1' + 1..e1' + 1 + nameLen] == b1[e1 + 1..e1 + 1 + nameLen]
    requires b2[e2' + 1..e2' + 1 + entryLen] == b1[e2 + 1..e2 + 1 + entryLen]
    ensures TryGetEntry(b1, o1, parse).Failure? ==> TryGetEntry(b2, o2, parse) == TryGetEntry(b1, o1, parse)
    ensures TryGetEntry(b1, o1, parse).Success? ==>
              TryGetEntry(b2, o2, parse)
              == Success(Some(TryGetEntry(b1, o1, parse).value.value.(next := end2)))
  {
  }

  /**
   * The outcome at `o1` depends only on the frame itself: any buffer that holds
   * the same frame at `o2` parses it to the same entry, its end moved by
   * `o2 - o1`. This covers text appended after the frame, text before it, and
   * the buffer compaction of the stream reader.
   */
  lemma TryGetEntryAgree(b1: string, o1: nat, b2: string, o2: nat, end: nat,
                         parse: string -> Result<Json, string>)
    requires FrameEnd(b1, o1) == Some(end) && Agree(b1, o1, b2, o2, end - o1)
    ensures FrameEnd(b2, o2) == Some(end - o1 + o2)
    ensures TryGetEntry(b1, o1, parse).Failure? ==> TryGetEntry(b2, o2, parse) == TryGetEntry(b1, o1, parse)
    ensures TryGetEntry(b1, o1, parse).Success? ==>
              TryGetEntry(b2, o2, parse)
              == Success(Some(TryGetEntry(b1, o1, parse).value.value.(next := end - o1 + o2)))
  {
    var nameLen, e1 := NumberAt(b1, o1).value.0, NumberAt(b1, o1).value.1;
    var entryLen, e2 := NumberAt(b1, e1 + 1 + nameLen).value.0, NumberAt(b1, e1 + 1 + nameLen).value.1;
    FrameAgreeFacts(b1, o1, b2, o2, end, nameLen, entryLen, e1, e2, e1 - o1 + o2, e2 - o1 + o2);
    TryGetEntrySame(b1, o1, b2, o2, parse, nameLen, entryLen, e1, e2, e1 - o1 + o2, e2 - o1 + o2, end - o1 + o2);
  }

  /** Once an entry is complete (or its JSON is malformed), more buffered text does not change the outcome. */
  lemma TryGetEntryExtend(buf: string, more: string, off: nat, parse: string -> Result<Json, string>)
    requires TryGetEntry(buf, off, parse) != Success(None)
    ensures TryGetEntry(buf + more, off, parse) == TryGetEntry(buf, off, parse)
  {
    var end := FrameEnd(buf, off).value;
    forall i | off <= i < end
      ensures (buf + more)[i - off + off] == buf[i]
    {
    }
    AgreeFrom(buf, off, buf + more, off, end - off);
    TryGetEntryAgree(buf, off, buf + more, off, end, parse);
  }

  /** A buffer agrees with its own prefix below the cut. */
  lemma AgreeTruncated(buf: string, m: nat, off: nat, n: nat)
    requires off + n <= m <= |buf|
    ensures Agree(buf, off, buf[..m], off, n)
  {
    forall i | off <= i < off + n
      ensures buf[..m][i - off + off] == buf[i]
    {
    }
    AgreeFrom(buf, off, buf[..m], off, n);
  }

  /** Before the whole frame is buffered, the result is `null`, never an error. */
  lemma TryGetEntryIncomplete(buf: string, m: nat, off: nat, parse: string -> Result<Json, string>)
    requires FrameEnd(buf, off).Some? && m < FrameEnd(buf, off).value
    ensures TryGetEntry(buf[..m], off, parse) == Success(None)
  {
    var small := buf[..m];
    var (nameLen, e1) := NumberAt(buf, off).value;
    if e1 < m {
      AgreeTruncated(buf, m, off, e1 + 1 - off);
      NumberAtAgree(buf, off, small, off, e1 + 1 - off, nameLen, e1, e1);
      var p := e1 + 1 + nameLen;
      var (entryLen, e2) := NumberAt(buf, p).value;
      if e2 < m {
        AgreeTruncated(buf, m, p, e2 + 1 - p);
        NumberAtAgree(buf, p, small, p, e2 + 1 - p, entryLen, e2, e2);
      } else if p < m {
        ColonFromFirst(buf, p);
        NumberAtNoColon(small, p);
      }
    } else if off < m {
      ColonFromFirst(buf, off);
      NumberAtNoColon(small, off);
    }
  }

  /** `tryGetEntryFromString` once both lengths are read, the frame is buffered and its JSON parses. */
  lemma TryGetEntryComplete(buf: string, off: nat, parse: string -> Result<Json, string>,
                            name: string, e1: nat, entryLen: nat, e2: nat, v: Json)
    requires NumberAt(buf, off) == Some((|name|, e1))
    requires NumberAt(buf, e1 + 1 + |name|) == Some((entryLen, e2))
    requires e2 + 1 + entryLen <= |buf|
    requires buf[e1 + 1..e1 + 1 + |name|] == name
    requires parse(buf[e2 + 1..e2 + 1 + entryLen]) == Success(v)
    ensures FrameEnd(buf, off) == Some(e2 + 1 + entryLen)
    ensures TryGetEntry(buf, off, parse) == Success(Some(Entry(name, v, e2 + 1 + entryLen)))
  {
  }

  /** A length-prefixed text at the start of a buffer: its length is read back and the text follows the ':'. */
  lemma PrefixedRead(g: string, s: string, rest: string)
    requires g == LengthPrefixed(s) + rest
    ensures NumberAt(g, 0) == Some((|s|, |NatToString(|s|)|))
    ensures |NatToString(|s|)| + 1 + |s| <= |g|
    ensures g[|NatToString(|s|)| + 1..|NatToString(|s|)| + 1 + |s|] == s
  {
    var d := NatToString(|s|);
    assert g == d + ":" + s + rest;
    assert g[0..|d|] == d;
    assert g[|d|] == ':';
    assert g[|d| + 1..|d| + 1 + |s|] == s;
    NumberAtDigits(g, 0, d);
  }

  /** A length prefix read from a copy of it placed at `o`. */
  lemma ShiftedNumber(b: string, f: string, o: nat, v: nat, n: nat, n': nat)
    requires Agree(b, 0, f, o, |b|) && n < |b| && n' == o + n
    requires NumberAt(b, 0) == Some((v, n))
    ensures NumberAt(f, o) == Some((v, n'))
  {
    NumberAtAgree(b, 0, f, o, |b|, v, n, n');
  }

  /** A span read from a copy of it placed at `o`. */
  lemma ShiftedSlice(b: string, f: string, o: nat, s: string, i: nat, j: nat, i': nat, j': nat)
    requires Agree(b, 0, f, o, |b|) && i <= j <= |b| && i' == o + i && j' == o + j
    requires b[i..j] == s
    ensures f[i'..j'] == s
  {
    SliceAgree(b, 0, f, o, |b|, i, j, i', j');
  }

  /** A buffer agrees with any text it ends with. */
  lemma AgreeAppended(buf: string, pre: string, b: string, o: nat)
    requires buf == pre + b && o == |pre|
    ensures Agree(b, 0, buf, o, |b|) && |buf| == o + |b|
  {
    forall i | 0 <= i < |b|
      ensures buf[i - 0 + o] == b[i]
    {
    }
    AgreeFrom(b, 0, buf, o, |b|);
  }

  /** The first length prefix of a frame is read back, and the name is where it says. */
  lemma FrameReadsName(f: string, name: string, json: string, n1: nat)
    requires f == Frame(name, json) && n1 == |NatToString(|name|)|
    ensures NumberAt(f, 0) == Some((|name|, n1)) && f[n1 + 1..n1 + 1 + |name|] == name
  {
    PrefixedRead(f, name, LengthPrefixed(json));
  }

  /** A length-prefixed text on its own: its length is read back and the text fills the rest. */
  lemma PrefixedWhole(g: string, s: string, d: nat)
    requires g == LengthPrefixed(s) && d == |NatToString(|s|)|
    ensures NumberAt(g, 0) == Some((|s|, d))
    ensures |g| == d + 1 + |s| && g[d + 1..d + 1 + |s|] == s
  {
    assert g == LengthPrefixed(s) + "";
    PrefixedRead(g, s, "");
  }

  /** A length-prefixed text copied to the end of a buffer at `p` is read back from there. */
  lemma PrefixedEndsAt(f: string, b: string, s: string, p: nat, d: nat, e2: nat)
    requires Agree(b, 0, f, p, |b|) && |f| == p + |b| && e2 == p + d
    requires NumberAt(b, 0) == Some((|s|, d)) && |b| == d + 1 + |s| && b[d + 1..d + 1 + |s|] == s
    ensures NumberAt(f, p) == Some((|s|, e2))
    ensures e2 + 1 + |s| == |f| && f[e2 + 1..e2 + 1 + |s|] == s
  {
    ShiftedNumber(b, f, p, |s|, d, e2);
    ShiftedSlice(b, f, p, s, d + 1, d + 1 + |s|, e2 + 1, e2 + 1 + |s|);
  }

  /** The second length prefix of a frame is read back, and the JSON text is where it says. */
  lemma FrameReadsJson(f: string, name: string, json: string, p: nat, e2: nat)
    requires f == Frame(name, json)
    requires p == |NatToString(|name|)| + 1 + |name| && e2 == p + |NatToString(|json|)|
    ensures NumberAt(f, p) == Some((|json|, e2))
    ensures e2 + 1 + |json| == |f| && f[e2 + 1..e2 + 1 + |json|] == json
  {
    var a, b := LengthPrefixed(name), LengthPrefixed(json);
    var d := |NatToString(|json|)|;
    AgreeAppended(f, a, b, p);
    PrefixedWhole(b, json, d);
    PrefixedEndsAt(f, b, json, p, d, e2);
  }

  /** A frame on its own is complete, and its first length is that of the name. */
  lemma FrameComplete(f: string, name: string, json: string)
    requires f == Frame(name, json)
    ensures NumberAt(f, 0) == Some((|name|, |NatToString(|name|)|))
    ensures FrameEnd(f, 0) == Some(|f|)
  {
    var n1 := |NatToString(|name|)|;
    FrameReadsName(f, name, json, n1);
    var e2 := n1 + 1 + |name| + |NatToString(|json|)|;
    FrameReadsJson(f, name, json, n1 + 1 + |name|, e2);
    FrameEndAt(f, |name|, n1, |json|, e2);
  }

  /** Both lengths read and the frame's last character buffered: the frame ends there. */
  lemma FrameEndAt(buf: string, nameLen: nat, e1: nat, entryLen: nat, e2: nat)
    requires NumberAt(buf, 0) == Some((nameLen, e1))
    requires NumberAt(buf, e1 + 1 + nameLen) == Some((entryLen, e2))
    requires e2 + 1 + entryLen == |buf|
    ensures FrameEnd(buf, 0) == Some(|buf|)
  {
  }

  /** A buffer read as a frame of `name` and a JSON text that parses to `v`. */
  lemma FrameParsesFrom(f: string, name: string, json: string, v: Json, parse: string -> Result<Json, string>,
                        n1: nat, e2: nat)
    requires NumberAt(f, 0) == Some((|name|, n1))
    requires NumberAt(f, n1 + 1 + |name|) == Some((|json|, e2))
    requires e2 + 1 + |json| == |f|
    requires f[n1 + 1..n1 + 1 + |name|] == name
    requires f[e2 + 1..e2 + 1 + |json|] == json
    requires parse(json) == Success(v)
    ensures FrameEnd(f, 0) == Some(|f|)
    ensures TryGetEntry(f, 0, parse) == Success(Some(Entry(name, v, |f|)))
  {
    TryGetEntryComplete(f, 0, parse, name, n1, |json|, e2, v);
  }

  /** The frame of a name and a JSON text, parsed on its own. */
  lemma FrameParses(f: string, name: string, json: string, v: Json, parse: string -> Result<Json, string>)
    requires f == Frame(name, json) && parse(json) == Success(v)
    ensures FrameEnd(f, 0) == Some(|f|)
    ensures TryGetEntry(f, 0, parse) == Success(Some(Entry(name, v, |f|)))
  {
    var n1 := |NatToString(|name|)|;
    var e2 := n1 + 1 + |name| + |NatToString(|json|)|;
    FrameReadsName(f, name, json, n1);
    FrameReadsJson(f, name, json, n1 + 1 + |name|, e2);
    FrameParsesFrom(f, name, json, v, parse, n1, e2);
  }

  lemma AgreeInside(buf: string, pre: string, f: string, post: string)
    requires buf == pre + f + post
    ensures Agree(f, 0, buf, |pre|, |f|)
  {
    forall i | 0 <= i < |f|
      ensures buf[i - 0 + |pre|] == f[i]
    {
    }
    AgreeFrom(f, 0, buf, |pre|, |f|);
  }

  /** A buffer holding `f` after `pre` reads `f` as it reads it on its own, shifted by `|pre|`. */
  lemma Placed(buf: string, pre: string, f: string, post: string, parse: string -> Result<Json, string>)
    requires buf == pre + f + post
    requires FrameEnd(f, 0) == Some(|f|) && TryGetEntry(f, 0, parse).Success?
    ensures TryGetEntry(buf, |pre|, parse)
         == Success(Some(TryGetEntry(f, 0, parse).value.value.(next := |pre| + |f|)))
  {
    AgreeInside(buf, pre, f, post);
    TryGetEntryAgree(f, 0, buf, |pre|, |f|, parse);
  }

  /** `Placed` for a frame that ends the buffer. */
  lemma PlacedLast(buf: string, pre: string, f: string, parse: string -> Result<Json, string>)
    requires buf == pre + f
    requires FrameEnd(f, 0) == Some(|f|) && TryGetEntry(f, 0, parse).Success?
    ensures TryGetEntry(buf, |pre|, parse)
         == Success(Some(TryGetEntry(f, 0, parse).value.value.(next := |buf|)))
  {
    AgreeAppended(buf, pre, f, |pre|);
    TryGetEntryAgree(f, 0, buf, |pre|, |f|, parse);
  }

  /** A frame placed anywhere in a buffer parses to its name and value. */
  lemma PlacedFrame(pre: string, f: string, post: string, name: string, json: string, v: Json,
                    parse: string -> Result<Json, string>)
    requires f == Frame(name, json) && parse(json) == Success(v)
    ensures TryGetEntry(pre + f + post, |pre|, parse) == Success(Some(Entry(name, v, |pre| + |f|)))
  {
    FrameParses(f, name, json, v, parse);
    Placed(pre + f + post, pre, f, post, parse);
  }

  /**
   * Round trip: a serialized entry, wherever it sits in a buffer, is parsed
   * back to its name and value, and the next offset is the end of the frame.
   * The name is located by its length alone, so it may contain ':' or digits.
   */
  lemma SerializeRoundTrip(pre: string, name: string, v: Json, post: string,
                           parse: string -> Result<Json, string>)
    requires parse(Stringify(v)) == Success(v)
    ensures TryGetEntry(pre + Serialize(name, v) + post, |pre|, parse)
         == Success(Some(Entry(name, v, |pre| + |Serialize(name, v)|)))
  {
    PlacedFrame(pre, Serialize(name, v), post, name, Stringify(v), v, parse);
  }

  /** `SerializeRoundTrip` for a frame that ends the buffer. */
  lemma SerializeRoundTripAtEnd(pre: string, name: string, v: Json, parse: string -> Result<Json, string>, o: nat)
    requires parse(Stringify(v)) == Success(v) && o == |pre|
    ensures TryGetEntry(pre + Serialize(name, v), o, parse)
         == Success(Some(Entry(name, v, |pre + Serialize(name, v)|)))
  {
    var f := Serialize(name, v);
    FrameParses(f, name, Stringify(v), v, parse);
    PlacedLast(pre + f, pre, f, parse);
  }

  lemma Example42()
    ensures NumberAt("42:", 0) == Some((42, 2))
  {
    NumberAtDigits("42:", 0, "42");
  }

  lemma Example49200()
    ensures NumberAt("49200:", 0) == Some((49200, 5))
  {
    NumberAtDigits("49200:", 0, "49200");
  }

  lemma Example25()
    ensures NumberAt("a25:", 1) == Some((25, 3))
  {
    NumberAtDigits("a25:", 1, "25");
  }

  lemma ExampleEmpty()
    ensures NumberAt("", 0) == None
  {
  }

  lemma Example4a2()
    ensures NumberAt("4a2:0", 0) == None
  {
    assert !IsDigit("4a2:0"[1]);
  }

  lemma ExampleNoColon()
    ensures NumberAt("42", 0) == None
  {
  }

  /** `JSON.stringify` of an object with one key. */
  lemma StringifySingleton(k: string, v: Json)
    ensures Stringify(JObj([(k, v)])) == "{" + Quote(k) + ":" + Stringify(v) + "}"
  {
    var fields := [(k, v)];
    var parts := seq(|fields|, i requires 0 <= i < |fields| => Quote(fields[i].0) + ":" + Stringify(fields[i].1));
    assert parts == [Quote(k) + ":" + Stringify(v)];
  }

  lemma ExampleJsonText(key: string, content: string)
    requires key == "content" && content == "test_content"
    ensures "{" + ("\"" + key + "\"") + ":" + ("\"" + content + "\"") + "}" == "{\"content\":\"test_content\"}"
  {
  }

  lemma ExampleFrameText(name: string, json: string)
    requires name == "name" && json == "{\"content\":\"test_content\"}"
    ensures NatToString(4) + ":" + name + NatToString(26) + ":" + json == "4:name26:{\"content\":\"test_content\"}"
  {
  }

  /** The frame the unit test expects for the name "name" and the object `{content: "test_content"}`. */
  lemma SerializeExample(name: string, key: string, content: string)
    requires name == "name" && key == "content" && content == "test_content"
    ensures Serialize(name, JObj([(key, JStr(content))])) == "4:name26:{\"content\":\"test_content\"}"
  {
    var json := Stringify(JObj([(key, JStr(content))]));
    assert json == "{\"content\":\"test_content\"}" by {
      QuotePlain(key);
      QuotePlain(content);
      StringifySingleton(key, JStr(content));
      ExampleJsonText(key, content);
    }
    ExampleFrameText(name, json);
  }
}
