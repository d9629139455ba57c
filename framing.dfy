/** Frame reassembly as dataReceived performs it, stated on values: which 153-byte frames are
    handed to the decoder, in which order, and what the buffer holds afterwards. The decoder's
    only failure (an invalid GPS date-time) ends the call: the buffer is emptied and the chunk lost. */
module Framing {
  import opened Bytes
  import opened Wrappers
  import opened FrameLayout

  /** The resync searches for the tag from this offset on, skipping the match at 0. */
  const SearchStart: nat := 6

  /** The result of one of the repair loops: the frames handed to the decoder in order, what is
      left of the buffer, whether flag was set (the chunk is then discarded) and whether the
      decoder raised (on the last frame handed). */
  datatype Step = Step(handed: seq<Frame>, rest: seq<byte>, flag: bool, error: bool)

  function Prepend(fs: seq<Frame>, s: Step): (r: Step)
  {
    s.(handed := fs + s.handed)
  }

  lemma PrependTwice(a: seq<Frame>, b: seq<Frame>, s: Step)
    ensures Prepend(a, Prepend(b, s)) == Prepend(a + b, s)
  {
    assert a + (b + s.handed) == (a + b) + s.handed;
  }

  /** The loop for a tag-led buffer whose length is a multiple of 153 (lines 316-326). */
  function ConcatFrames(tag: seq<byte>, b: seq<byte>, n: nat, ok: Frame -> bool): (r: Step)
    requires |b| == FrameLength * n
    decreases n, 1
  {
    if n == 0 then Step([], b, false, false) else ConcatPass(tag, b, n, ok)
  }

  /** One pass of that loop over the front slice, then the passes left. */
  function ConcatPass(tag: seq<byte>, b: seq<byte>, n: nat, ok: Frame -> bool): (r: Step)
    requires n >= 1 && |b| == FrameLength * n
    decreases n, 0
  {
    var part: Frame := b[..FrameLength];
    if !StartsWith(part, tag) then Step([], b, true, false)
    else if !ok(part) then Step([part], [], false, true)
    else Prepend([part], ConcatFrames(tag, b[FrameLength..], n - 1, ok))
  }

  /** One decoded slice moves from the loop's remaining work to the frames handed over. */
  lemma ConcatAdvance(tag: seq<byte>, b: seq<byte>, n: nat, done: seq<Frame>, ok: Frame -> bool)
    requires n >= 1 && |b| == FrameLength * n
    requires StartsWith(b[..FrameLength], tag) && ok(b[..FrameLength])
    ensures |b[FrameLength..]| == FrameLength * (n - 1)
    ensures Prepend(done, ConcatFrames(tag, b, n, ok))
         == Prepend(done + [b[..FrameLength]], ConcatFrames(tag, b[FrameLength..], n - 1, ok))
  {
    var part: Frame := b[..FrameLength];
    PrependTwice(done, [part], ConcatFrames(tag, b[FrameLength..], n - 1, ok));
  }

  /** The loop for a tag-led buffer of any other length over 153 (lines 328-343). */
  function ResyncFrames(tag: seq<byte>, b: seq<byte>, n: nat, ok: Frame -> bool): (r: Step)
    decreases n, 1
  {
    if n == 0 then Step([], b, false, false) else ResyncPass(tag, b, n, ok)
  }

  /** One pass of that loop: search for the next tag from offset 6, then the passes left. */
  function ResyncPass(tag: seq<byte>, b: seq<byte>, n: nat, ok: Frame -> bool): (r: Step)
    requires n >= 1
    decreases n, 0
  {
    var k := FindFrom(b, tag, SearchStart);
    if k >= FrameLength then
      var part: Frame := b[..FrameLength];
      if !ok(part) then Step([part], [], false, true)
      else Prepend([part], ResyncFrames(tag, b[FrameLength..], n - 1, ok))
    else if k == -1 then ResyncFrames(tag, [], n - 1, ok)
    else Step([], b[k..], true, false)
  }

  /** What one call does to the buffer. */
  datatype Outcome = Outcome(handed: seq<Frame>, rest: seq<byte>, kept: bool, error: bool)
  {
    /** Emptied after an exception; otherwise the remainder, followed by the chunk when flag stayed 0. */
    function NewBuffer(chunk: seq<byte>): (r: seq<byte>)
    {
      if error then [] else if kept then rest + chunk else rest
    }
  }

  function Conclude(s: Step): (r: Outcome)
  {
    Outcome(s.handed, s.rest, !s.flag, s.error)
  }

  /** dataReceived's treatment of the buffer as it stands when the call begins (lines 287-363). */
  function Reassemble(tag: seq<byte>, buf: seq<byte>, ok: Frame -> bool): (r: Outcome)
  {
    if StartsWith(buf, tag) && |buf| == FrameLength then
      var f: Frame := buf;
      Outcome([f], [], true, !ok(f))
    else if |buf| <= FrameLength then Outcome([], buf, true, false)
    else if StartsWith(buf, tag) then
      if |buf| % FrameLength == 0 then Conclude(ConcatFrames(tag, buf, |buf| / FrameLength, ok))
      else Conclude(ResyncFrames(tag, buf, |buf| / FrameLength, ok))
    else
      var k := FindFrom(buf, tag, SearchStart);
      if k == -1 then Outcome([], [], true, false) else Outcome([], buf[k..], false, false)
  }

  /** The handed frames are consecutive slices from the front of b, rest is a suffix of b,
      and the two do not overlap. */
  predicate FromFront(b: seq<byte>, handed: seq<Frame>, rest: seq<byte>)
  {
    var taken := Flatten(handed);
    |taken| + |rest| <= |b| && b[..|taken|] == taken && b[|b| - |rest|..] == rest
  }

  /** Every frame but the last decoded, and the decoder raised exactly when the last one failed. */
  predicate FailsOnlyAtEnd(handed: seq<Frame>, error: bool, ok: Frame -> bool)
  {
    && (forall k :: 0 <= k < |handed| - 1 ==> ok(handed[k]))
    && (error <==> handed != [] && !ok(handed[|handed| - 1]))
  }

  lemma FromFrontPrepend(b: seq<byte>, part: Frame, s: Step)
    requires |b| >= FrameLength && part == b[..FrameLength]
    requires FromFront(b[FrameLength..], s.handed, s.rest)
    ensures FromFront(b, [part] + s.handed, s.rest)
  {
    FlattenPrepend(part, s.handed);
    var taken := Flatten(s.handed);
    assert Flatten([part] + s.handed) == part + taken;
    assert b[..FrameLength + |taken|] == part + taken by {
      assert b[FrameLength..][..|taken|] == taken;
      assert b[..FrameLength + |taken|] == b[..FrameLength] + b[FrameLength..][..|taken|];
    }
    assert b[|b| - |s.rest|..] == b[FrameLength..][|b| - FrameLength - |s.rest|..];
  }

  lemma FailsOnlyAtEndPrepend(part: Frame, s: Step, ok: Frame -> bool)
    requires ok(part) && FailsOnlyAtEnd(s.handed, s.error, ok)
    ensures FailsOnlyAtEnd([part] + s.handed, s.error, ok)
  {
    var h := [part] + s.handed;
    forall k | 0 <= k < |h| - 1
      ensures ok(h[k])
    {
      if k > 0 {
        assert h[k] == s.handed[k - 1];
      }
    }
  }

  lemma {:induction false} ConcatShape(tag: seq<byte>, b: seq<byte>, n: nat, ok: Frame -> bool)
    requires |b| == FrameLength * n
    ensures var s := ConcatFrames(tag, b, n, ok);
      FromFront(b, s.handed, s.rest) && FailsOnlyAtEnd(s.handed, s.error, ok) && (s.error ==> s.rest == [])
    decreases n
  {
    var s := ConcatFrames(tag, b, n, ok);
    if n > 0 {
      assert s == ConcatPass(tag, b, n, ok);
      var part: Frame := b[..FrameLength];
      if StartsWith(part, tag) && ok(part) {
        var s' := ConcatFrames(tag, b[FrameLength..], n - 1, ok);
        ConcatShape(tag, b[FrameLength..], n - 1, ok);
        FromFrontPrepend(b, part, s');
        FailsOnlyAtEndPrepend(part, s', ok);
      } else if StartsWith(part, tag) {
        assert Flatten(s.handed) == part by { FlattenPrepend(part, []); }
      }
    }
  }

  lemma ResyncEmpty(tag: seq<byte>, n: nat, ok: Frame -> bool)
    ensures ResyncFrames(tag, [], n, ok) == Step([], [], false, false)
    decreases n
  {
    if n > 0 {
      ResyncEmpty(tag, n - 1, ok);
    }
  }

  lemma {:induction false} ResyncShape(tag: seq<byte>, b: seq<byte>, n: nat, ok: Frame -> bool)
    ensures var s := ResyncFrames(tag, b, n, ok);
      FromFront(b, s.handed, s.rest) && FailsOnlyAtEnd(s.handed, s.error, ok) && (s.error ==> s.rest == [])
    decreases n
  {
    var s := ResyncFrames(tag, b, n, ok);
    if n > 0 {
      assert s == ResyncPass(tag, b, n, ok);
      var k := FindFrom(b, tag, SearchStart);
      if k >= FrameLength {
        var part: Frame := b[..FrameLength];
        if ok(part) {
          var s' := ResyncFrames(tag, b[FrameLength..], n - 1, ok);
          ResyncShape(tag, b[FrameLength..], n - 1, ok);
          FromFrontPrepend(b, part, s');
          FailsOnlyAtEndPrepend(part, s', ok);
        } else {
          assert Flatten(s.handed) == part by { FlattenPrepend(part, []); }
        }
      } else if k == -1 {
        ResyncEmpty(tag, n - 1, ok);
      }
    }
  }

  /** Whatever the buffer holds, the frames handed to the decoder are consecutive 153-byte slices from
      its front, in order; what remains is a suffix of it that does not overlap them; every frame but
      the last decodes, and the call raises exactly when the last one does not. */
  lemma {:induction false} ReassembleFromFront(tag: seq<byte>, buf: seq<byte>, ok: Frame -> bool)
    ensures var o := Reassemble(tag, buf, ok);
      FromFront(buf, o.handed, o.rest) && FailsOnlyAtEnd(o.handed, o.error, ok)
  {
    var o := Reassemble(tag, buf, ok);
    if StartsWith(buf, tag) && |buf| == FrameLength {
      var f: Frame := buf;
      assert Flatten(o.handed) == f by { FlattenPrepend(f, []); }
    } else if |buf| <= FrameLength {
    } else if StartsWith(buf, tag) {
      if |buf| % FrameLength == 0 {
        ConcatShape(tag, buf, |buf| / FrameLength, ok);
      } else {
        ResyncShape(tag, buf, |buf| / FrameLength, ok);
      }
    }
  }

  /** After every call the buffer is a suffix of the old buffer, followed by the chunk exactly when
      flag stayed 0; after an exception it is empty. */
  lemma BufferIsSuffixThenChunk(tag: seq<byte>, buf: seq<byte>, chunk: seq<byte>, ok: Frame -> bool)
    ensures var o := Reassemble(tag, buf, ok);
      var rest := o.rest;
      && |rest| <= |buf| && rest == buf[|buf| - |rest|..]
      && o.NewBuffer(chunk) == (if o.error then [] else if o.kept then rest + chunk else rest)
  {
    ReassembleFromFront(tag, buf, ok);
  }

  /** A tag-led buffer of exactly 153 bytes is decoded once and replaced by the chunk
      (or emptied, when decoding raises). */
  lemma ExactFrame(tag: seq<byte>, buf: seq<byte>, chunk: seq<byte>, ok: Frame -> bool)
    requires StartsWith(buf, tag) && |buf| == FrameLength
    ensures Reassemble(tag, buf, ok).handed == [buf]
    ensures Reassemble(tag, buf, ok).NewBuffer(chunk) == if ok(buf) then chunk else []
  {
  }

  /** A buffer of at most 153 bytes that is not a tag-led frame is never searched: nothing is
      decoded and the chunk is appended to it. */
  lemma ShortBufferGrows(tag: seq<byte>, buf: seq<byte>, chunk: seq<byte>, ok: Frame -> bool)
    requires |buf| <= FrameLength && !(StartsWith(buf, tag) && |buf| == FrameLength)
    ensures Reassemble(tag, buf, ok).handed == []
    ensures Reassemble(tag, buf, ok).NewBuffer(chunk) == buf + chunk
  {
  }

  lemma {:induction false} ConcatHanded(tag: seq<byte>, b: seq<byte>, n: nat, ok: Frame -> bool)
    requires |b| == FrameLength * n
    ensures var s := ConcatFrames(tag, b, n, ok);
      && |s.handed| <= n
      && (forall j :: 0 <= j < |s.handed| ==>
            s.handed[j] == b[FrameLength * j..FrameLength * j + FrameLength] && StartsWith(s.handed[j], tag))
    decreases n
  {
    var s := ConcatFrames(tag, b, n, ok);
    if n > 0 {
      assert s == ConcatPass(tag, b, n, ok);
      var part: Frame := b[..FrameLength];
      if StartsWith(part, tag) && ok(part) {
        var b' := b[FrameLength..];
        var s' := ConcatFrames(tag, b', n - 1, ok);
        ConcatHanded(tag, b', n - 1, ok);
        forall j | 1 <= j < |s.handed|
          ensures s.handed[j] == b[FrameLength * j..FrameLength * j + FrameLength]
        {
          assert s.handed[j] == s'.handed[j - 1];
          var lo := FrameLength * (j - 1);
          assert lo + FrameLength == FrameLength * j;
          assert b'[lo..lo + FrameLength] == b[lo + FrameLength..lo + 2 * FrameLength];
        }
      }
    }
  }

  lemma {:induction false} ConcatStop(tag: seq<byte>, b: seq<byte>, n: nat, ok: Frame -> bool)
    requires |b| == FrameLength * n
    ensures var s := ConcatFrames(tag, b, n, ok);
      var m := |s.handed|;
      && m <= n
      && (!s.error && m < n ==>
            s.flag && s.rest == b[FrameLength * m..]
            && !StartsWith(b[FrameLength * m..FrameLength * m + FrameLength], tag))
      && (!s.error && m == n ==> !s.flag && s.rest == [])
    decreases n
  {
    var s := ConcatFrames(tag, b, n, ok);
    if n > 0 {
      assert s == ConcatPass(tag, b, n, ok);
      var part: Frame := b[..FrameLength];
      if StartsWith(part, tag) && ok(part) {
        var b' := b[FrameLength..];
        var s' := ConcatFrames(tag, b', n - 1, ok);
        ConcatStop(tag, b', n - 1, ok);
        var m := |s'.handed|;
        assert ConcatPass(tag, b, n, ok) == Prepend([part], s');
        if !s.error && m < n - 1 {
          var lo := FrameLength * m;
          assert lo + FrameLength == FrameLength * (m + 1);
          assert b'[lo..] == b[lo + FrameLength..];
          assert b'[lo..lo + FrameLength] == b[lo + FrameLength..lo + 2 * FrameLength];
        }
      }
    }
  }

  /** A tag-led buffer longer than 153 whose length is a multiple of 153: its slices are decoded
      front to back while each starts with the tag; the first untagged slice stops the loop, the
      remainder from it on stays in the buffer and the chunk is discarded; when every slice is
      decoded the buffer becomes the chunk. */
  lemma ConcatenatedFrames(tag: seq<byte>, buf: seq<byte>, chunk: seq<byte>, ok: Frame -> bool)
    requires StartsWith(buf, tag) && |buf| > FrameLength && |buf| % FrameLength == 0
    ensures var o := Reassemble(tag, buf, ok);
      var n := |buf| / FrameLength;
      var m := |o.handed|;
      && m <= n
      && (forall j :: 0 <= j < m ==>
            o.handed[j] == buf[FrameLength * j..FrameLength * j + FrameLength] && StartsWith(o.handed[j], tag))
      && (!o.error && m < n ==>
            !StartsWith(buf[FrameLength * m..FrameLength * m + FrameLength], tag)
            && o.NewBuffer(chunk) == buf[FrameLength * m..])
      && (!o.error && m == n ==> o.NewBuffer(chunk) == chunk)
  {
    ConcatHanded(tag, buf, |buf| / FrameLength, ok);
    ConcatStop(tag, buf, |buf| / FrameLength, ok);
  }

  /** N tag-led, decodable frames arriving together are all decoded, in order, and the buffer
      becomes the chunk. */
  lemma AllConcatenatedFramesDecoded(tag: seq<byte>, buf: seq<byte>, chunk: seq<byte>, ok: Frame -> bool)
    requires |buf| > FrameLength && |buf| % FrameLength == 0
    requires forall j :: 0 <= j < |buf| / FrameLength ==>
      StartsWith(buf[FrameLength * j..FrameLength * j + FrameLength], tag)
      && ok(buf[FrameLength * j..FrameLength * j + FrameLength])
    ensures |Reassemble(tag, buf, ok).handed| == |buf| / FrameLength
    ensures Reassemble(tag, buf, ok).NewBuffer(chunk) == chunk
  {
    var n := |buf| / FrameLength;
    assert buf[FrameLength * 0..FrameLength * 0 + FrameLength] == buf[..FrameLength];
    assert StartsWith(buf, tag);
    ConcatenatedFrames(tag, buf, chunk, ok);
    ReassembleFromFront(tag, buf, ok);
  }

  /** A buffer longer than 153 that is misaligned (tag-led, length not a multiple of 153) or wrongly
      headed: the tag is searched from offset 6. */
  lemma {:induction false} MisalignedOrWrongHeader(tag: seq<byte>, buf: seq<byte>, chunk: seq<byte>, ok: Frame -> bool)
    requires |buf| > FrameLength && !(StartsWith(buf, tag) && |buf| % FrameLength == 0)
    ensures var o := Reassemble(tag, buf, ok);
      var k := FindFrom(buf, tag, SearchStart);
      && (k == -1 ==> o.handed == [] && o.NewBuffer(chunk) == chunk)
      && (0 <= k < FrameLength ==> o.handed == [] && o.NewBuffer(chunk) == buf[k..])
      && (k >= FrameLength && StartsWith(buf, tag) ==> o.handed != [] && o.handed[0] == buf[..FrameLength])
      && (k >= FrameLength && !StartsWith(buf, tag) ==> o.handed == [] && o.NewBuffer(chunk) == buf[k..])
  {
    var k := FindFrom(buf, tag, SearchStart);
    if StartsWith(buf, tag) {
      var n := |buf| / FrameLength;
      assert n >= 1;
      assert ResyncFrames(tag, buf, n, ok) == ResyncPass(tag, buf, n, ok);
      if k == -1 {
        ResyncEmpty(tag, n - 1, ok);
      }
    }
  }

  /** A resync step that finds the next tag at or beyond 153 always hands the front slice over. */
  lemma ResyncHandsFront(tag: seq<byte>, b: seq<byte>, n: nat, ok: Frame -> bool)
    requires n >= 1 && FindFrom(b, tag, SearchStart) >= FrameLength
    ensures |b| >= FrameLength
    ensures ResyncFrames(tag, b, n, ok).handed != []
    ensures ResyncFrames(tag, b, n, ok).handed[0] == b[..FrameLength]
  {
  }

  /** Dropping one frame from the front moves the next tag 153 places closer. */
  lemma FindAfterFrame(tag: seq<byte>, buf: seq<byte>)
    requires FindFrom(buf, tag, SearchStart) >= FrameLength + SearchStart
    ensures |buf| >= FrameLength
    ensures FindFrom(buf[FrameLength..], tag, SearchStart) == FindFrom(buf, tag, SearchStart) - FrameLength
  {
    var k := FindFrom(buf, tag, SearchStart);
    var b' := buf[FrameLength..];
    forall i | SearchStart <= i < k - FrameLength
      ensures !OccursAt(b', tag, i)
    {
      OccursAtDrop(buf, tag, FrameLength, i);
    }
    OccursAtDrop(buf, tag, FrameLength, k - FrameLength);
    FindFromIs(b', tag, SearchStart, k - FrameLength);
  }

  /** The resync loop can hand the decoder a slice that does not start with the tag: when the first
      tag after the leading one sits at offset 306 or later, the second slice, bytes 153 to 305,
      is decoded although it has no header. */
  lemma {:induction false} ResyncDecodesUntaggedSlice(tag: seq<byte>, buf: seq<byte>, ok: Frame -> bool)
    requires StartsWith(buf, tag) && |buf| % FrameLength != 0
    requires FindFrom(buf, tag, SearchStart) >= 2 * FrameLength
    requires ok(buf[..FrameLength])
    ensures |Reassemble(tag, buf, ok).handed| >= 2
    ensures Reassemble(tag, buf, ok).handed[1] == buf[FrameLength..2 * FrameLength]
    ensures !StartsWith(Reassemble(tag, buf, ok).handed[1], tag)
  {
    var k := FindFrom(buf, tag, SearchStart);
    var n := |buf| / FrameLength;
    assert n >= 2;
    var b' := buf[FrameLength..];
    FindAfterFrame(tag, buf);
    ResyncHandsFront(tag, b', n - 1, ok);
    var s' := ResyncFrames(tag, b', n - 1, ok);
    var part: Frame := buf[..FrameLength];
    assert ResyncFrames(tag, buf, n, ok) == Prepend([part], s');
    assert Reassemble(tag, buf, ok).handed == [part] + s'.handed;
    assert b'[..FrameLength] == buf[FrameLength..2 * FrameLength];
    assert !OccursAt(buf, tag, FrameLength);
  }

  /** A complete tag-led frame followed by 1 to 152 bytes in which the tag does not occur again
      (from offset 6 on) is deleted undecoded, and the buffer becomes the chunk alone. */
  lemma FrameBeforeUntaggedTailIsLost(tag: seq<byte>, buf: seq<byte>, chunk: seq<byte>, ok: Frame -> bool)
    requires StartsWith(buf, tag)
    requires FrameLength < |buf| < 2 * FrameLength
    requires forall i :: SearchStart <= i ==> !OccursAt(buf, tag, i)
    ensures Reassemble(tag, buf, ok).handed == []
    ensures Reassemble(tag, buf, ok).NewBuffer(chunk) == chunk
  {
    FindFromNone(buf, tag, SearchStart);
    MisalignedOrWrongHeader(tag, buf, chunk, ok);
  }

  /** The commonest way there: the chunk boundary cuts the next frame's tag, so fewer bytes than the
      tag has follow the frame. */
  lemma FrameBeforeCutTagIsLost(tag: seq<byte>, buf: seq<byte>, chunk: seq<byte>, ok: Frame -> bool)
    requires StartsWith(buf, tag) && |tag| <= FrameLength
    requires FrameLength < |buf| < FrameLength + |tag|
    requires forall i :: SearchStart <= i < FrameLength ==> !OccursAt(buf, tag, i)
    ensures Reassemble(tag, buf, ok).handed == []
    ensures Reassemble(tag, buf, ok).NewBuffer(chunk) == chunk
  {
    forall i | FrameLength <= i
      ensures !OccursAt(buf, tag, i)
    {
      assert i + |tag| > |buf|;
    }
    FrameBeforeUntaggedTailIsLost(tag, buf, chunk, ok);
  }
}
