/**
 The Annex-B byte-stream form of HEVC parameter sets (ITU-T H.265, Annex B,
 section B.2): every NAL unit is written as the 4-byte start code 00 00 00 01
 followed by the unit's bytes, in order, with nothing in between and nothing
 after the last unit.

 The parameter-set arrays of an HEVC decoder configuration record
 (ISO/IEC 14496-15, clause 8.3.3) are modelled as a sequence of arrays, each
 an ordered sequence of NAL units. `AnnexB` is the reference meaning of the
 conversion; `WriteAnnexB` is the two-pass size-then-cursor algorithm of the
 handler, proved to produce exactly that meaning.
 */
module AnnexBFormat {
  import opened Wrappers
  import opened Ints

  type Byte = bv8

  /** One NAL unit's raw bytes, without any length field or start code. */
  type Nalu = seq<Byte>

  const StartCode: seq<Byte> := [0, 0, 0, 1]

  /* ---------------------------------------------------------------------
     Sizing: the first pass of the conversion, defined on its own.
     --------------------------------------------------------------------- */

  /** Bytes the units of one array take in byte-stream form: sum of (size + 4). */
  function NalusSize(nalus: seq<Nalu>): nat
  {
    if |nalus| == 0 then 0 else |nalus[0]| + 4 + NalusSize(nalus[1..])
  }

  /** Bytes all arrays take in byte-stream form. */
  function ArraysSize(arrays: seq<seq<Nalu>>): nat
  {
    if |arrays| == 0 then 0 else NalusSize(arrays[0]) + ArraysSize(arrays[1..])
  }

  /* ---------------------------------------------------------------------
     The byte-stream form itself.
     --------------------------------------------------------------------- */

  /** Start code then bytes, for each unit of `nalus` in order. */
  function Frame(nalus: seq<Nalu>): (r: seq<Byte>)
    ensures |r| == NalusSize(nalus)
  {
    if |nalus| == 0 then [] else StartCode + nalus[0] + Frame(nalus[1..])
  }

  /** The converted extradata: every array framed in turn, arrays in order. */
  function AnnexB(arrays: seq<seq<Nalu>>): (r: seq<Byte>)
    ensures |r| == ArraysSize(arrays)
  {
    if |arrays| == 0 then [] else Frame(arrays[0]) + AnnexB(arrays[1..])
  }

  /** All NAL units of all arrays, arrays then units, in order. */
  function Flatten(arrays: seq<seq<Nalu>>): seq<Nalu>
  {
    if |arrays| == 0 then [] else arrays[0] + Flatten(arrays[1..])
  }

  /** The payload size of each unit, in order. */
  function Sizes(nalus: seq<Nalu>): (r: seq<nat>)
    ensures |r| == |nalus|
    ensures forall k :: 0 <= k < |nalus| ==> r[k] == |nalus[k]|
  {
    if |nalus| == 0 then [] else [|nalus[0]|] + Sizes(nalus[1..])
  }

  /**
   Inverse of `Frame`: given the unit sizes (known from the configuration
   record), take a buffer apart again. Fails unless every unit is preceded
   by exactly the start code and the buffer holds nothing beyond the last unit.
   */
  function Unframe(buf: seq<Byte>, sizes: seq<nat>): (r: Option<seq<Nalu>>)
    ensures r.Some? ==> |r.value| == |sizes|
    decreases |sizes|
  {
    if |sizes| == 0 then
      if |buf| == 0 then Some([]) else None
    else if |buf| < 4 + sizes[0] || buf[..4] != StartCode then
      None
    else
      match Unframe(buf[4 + sizes[0]..], sizes[1..])
      case None => None
      case Some(rest) => Some([buf[4..4 + sizes[0]]] + rest)
  }

  /* ---------------------------------------------------------------------
     Structural lemmas.
     --------------------------------------------------------------------- */

  /** Framing distributes over concatenation of unit lists. */
  lemma {:induction false} FrameAppend(a: seq<Nalu>, b: seq<Nalu>)
    ensures Frame(a + b) == Frame(a) + Frame(b)
    decreases |a|
  {
    if |a| == 0 {
      assert a + b == b;
    } else {
      assert (a + b)[0] == a[0];
      assert (a + b)[1..] == a[1..] + b;
      FrameAppend(a[1..], b);
    }
  }

  /** Conversion distributes over concatenation of array lists. */
  lemma {:induction false} AnnexBAppend(a: seq<seq<Nalu>>, b: seq<seq<Nalu>>)
    ensures AnnexB(a + b) == AnnexB(a) + AnnexB(b)
    decreases |a|
  {
    if |a| == 0 {
      assert a + b == b;
    } else {
      assert (a + b)[0] == a[0];
      assert (a + b)[1..] == a[1..] + b;
      AnnexBAppend(a[1..], b);
    }
  }

  /** Flattening distributes over concatenation of array lists. */
  lemma {:induction false} FlattenAppend(a: seq<seq<Nalu>>, b: seq<seq<Nalu>>)
    ensures Flatten(a + b) == Flatten(a) + Flatten(b)
    decreases |a|
  {
    if |a| == 0 {
      assert a + b == b;
    } else {
      assert (a + b)[0] == a[0];
      assert (a + b)[1..] == a[1..] + b;
      FlattenAppend(a[1..], b);
    }
  }

  /** Writing one more unit extends the framed prefix by start code and unit. */
  lemma FrameSnoc(nalus: seq<Nalu>, n: Nalu)
    ensures Frame(nalus + [n]) == Frame(nalus) + StartCode + n
  {
    FrameAppend(nalus, [n]);
    assert Frame([n]) == StartCode + n + Frame([]);
  }

  /** Finishing one more array extends the converted prefix by its framing. */
  lemma AnnexBSnoc(arrays: seq<seq<Nalu>>, a: seq<Nalu>)
    ensures AnnexB(arrays + [a]) == AnnexB(arrays) + Frame(a)
  {
    AnnexBAppend(arrays, [a]);
    assert AnnexB([a]) == Frame(a) + AnnexB([]);
  }

  /**
   The nesting into arrays does not matter to the output: the conversion is
   the framing of the flat list of all units, in order. Nothing is
   reordered, dropped or inserted.
   */
  lemma {:induction false} AnnexBIsFrameOfFlatten(arrays: seq<seq<Nalu>>)
    ensures AnnexB(arrays) == Frame(Flatten(arrays))
    decreases |arrays|
  {
    if |arrays| > 0 {
      AnnexBIsFrameOfFlatten(arrays[1..]);
      FrameAppend(arrays[0], Flatten(arrays[1..]));
    }
  }

  /** A buffer is the framing of `nalus` exactly when Unframe, given the
      unit sizes, recovers `nalus` from it. */
  lemma UnframeCharacterisation(buf: seq<Byte>, nalus: seq<Nalu>)
    ensures Unframe(buf, Sizes(nalus)) == Some(nalus) <==> buf == Frame(nalus)
  {
    if buf == Frame(nalus) {
      UnframeFrame(nalus);
    }
    if Unframe(buf, Sizes(nalus)) == Some(nalus) {
      FrameUnframe(buf, Sizes(nalus));
    }
  }

  /** Round trip: framing then unframing gives back every unit, in order. */
  lemma {:induction false} UnframeFrame(nalus: seq<Nalu>)
    ensures Unframe(Frame(nalus), Sizes(nalus)) == Some(nalus)
    decreases |nalus|
  {
    if |nalus| > 0 {
      var n := nalus[0];
      var buf := Frame(nalus);
      assert buf == StartCode + n + Frame(nalus[1..]);
      assert buf[..4] == StartCode;
      assert buf[4..4 + |n|] == n;
      assert buf[4 + |n|..] == Frame(nalus[1..]);
      UnframeFrame(nalus[1..]);
      assert Sizes(nalus)[1..] == Sizes(nalus[1..]);
      assert [n] + nalus[1..] == nalus;
    }
  }

  /** The other direction: whatever Unframe accepts is exactly the framing
      of what it returns, with the sizes it was given. */
  lemma {:induction false} FrameUnframe(buf: seq<Byte>, sizes: seq<nat>)
    ensures Unframe(buf, sizes).Some? ==>
              Frame(Unframe(buf, sizes).value) == buf
              && Sizes(Unframe(buf, sizes).value) == sizes
    decreases |sizes|
  {
    if |sizes| > 0 && Unframe(buf, sizes).Some? {
      var rest := buf[4 + sizes[0]..];
      FrameUnframe(rest, sizes[1..]);
      var ns := Unframe(buf, sizes).value;
      var tail := Unframe(rest, sizes[1..]).value;
      assert ns == [buf[4..4 + sizes[0]]] + tail;
      assert ns[1..] == tail;
      assert buf == buf[..4] + buf[4..4 + sizes[0]] + rest;
      assert Sizes(ns) == [sizes[0]] + Sizes(tail);
    }
  }

  /** Bytes used by the first `k` units, i.e. where the cursor stands when
      the unit with index `k` is written. */
  lemma NalusSizePrefix(nalus: seq<Nalu>, k: nat)
    requires k <= |nalus|
    ensures NalusSize(nalus[..k]) + NalusSize(nalus[k..]) == NalusSize(nalus)
  {
    assert nalus[..k] + nalus[k..] == nalus;
    FrameAppend(nalus[..k], nalus[k..]);
  }

  /** A slice lying wholly in the right part of a concatenation. */
  lemma SliceRight(p: seq<Byte>, t: seq<Byte>, lo: nat, hi: nat)
    requires |p| <= lo <= hi <= |p| + |t|
    ensures (p + t)[lo..hi] == t[lo - |p|..hi - |p|]
  {
  }

  /** The first unit of a framed list sits right after its start code. */
  lemma FrameHead(nalus: seq<Nalu>)
    requires |nalus| > 0
    ensures 4 + |nalus[0]| <= |Frame(nalus)|
    ensures Frame(nalus)[..4] == StartCode
    ensures Frame(nalus)[4..4 + |nalus[0]|] == nalus[0]
  {
  }

  /**
   Start-code placement: unit `k` of a framed list begins at offset
   NalusSize(nalus[..k]) with the 4-byte start code, followed by its bytes
   verbatim; the next unit begins |nalus[k]| + 4 bytes later.
   */
  lemma FramePlacement(nalus: seq<Nalu>, k: nat)
    requires k < |nalus|
    ensures var off := NalusSize(nalus[..k]);
            var buf := Frame(nalus);
            && off + 4 + |nalus[k]| <= |buf|
            && buf[off..off + 4] == StartCode
            && buf[off + 4..off + 4 + |nalus[k]|] == nalus[k]
            && NalusSize(nalus[..k + 1]) == off + |nalus[k]| + 4
  {
    var n := nalus[k];
    var head := Frame(nalus[..k]);
    var tail := Frame(nalus[k..]);
    assert nalus[..k] + nalus[k..] == nalus;
    FrameAppend(nalus[..k], nalus[k..]);
    assert nalus[k..][0] == n;
    FrameHead(nalus[k..]);
    SliceRight(head, tail, |head|, |head| + 4);
    SliceRight(head, tail, |head| + 4, |head| + 4 + |n|);
    assert nalus[..k + 1] == nalus[..k] + [n];
    FrameSnoc(nalus[..k], n);
  }

  /** A slice of a slice is a slice of the whole. */
  lemma SliceOfSlice(buf: seq<Byte>, lo: nat, hi: nat, a: nat, b: nat)
    requires lo <= hi <= |buf| && a <= b <= hi - lo
    ensures buf[lo..hi][a..b] == buf[lo + a..lo + b]
  {
    forall k | 0 <= k < b - a
      ensures buf[lo..hi][a..b][k] == buf[lo + a..lo + b][k]
    {
    }
  }

  /** A unit placed inside a segment that is itself placed inside `buf`
      is placed inside `buf`, at the sum of the two offsets. */
  lemma PlacementInSegment(buf: seq<Byte>, lo: nat, seg: seq<Byte>, off: nat, n: Nalu)
    requires lo + |seg| <= |buf| && buf[lo..lo + |seg|] == seg
    requires off + 4 + |n| <= |seg|
    requires seg[off..off + 4] == StartCode && seg[off + 4..off + 4 + |n|] == n
    ensures buf[lo + off..lo + off + 4] == StartCode
    ensures buf[lo + off + 4..lo + off + 4 + |n|] == n
  {
    SliceOfSlice(buf, lo, lo + |seg|, off, off + 4);
    SliceOfSlice(buf, lo, lo + |seg|, off + 4, off + 4 + |n|);
  }

  /** The middle part of a three-way concatenation. */
  lemma MiddleSlice(a: seq<Byte>, b: seq<Byte>, c: seq<Byte>)
    ensures (a + (b + c))[|a|..|a| + |b|] == b
  {
    assert (a + (b + c))[|a|..] == b + c;
  }

  /** The conversion splits around array `i`: what comes before it, its
      own framing, and what comes after. */
  lemma AnnexBAround(arrays: seq<seq<Nalu>>, i: nat)
    requires i < |arrays|
    ensures AnnexB(arrays) == AnnexB(arrays[..i]) + (Frame(arrays[i]) + AnnexB(arrays[i + 1..]))
  {
    var pre := arrays[..i];
    var post := arrays[i..];
    assert pre + post == arrays;
    AnnexBAppend(pre, post);
    assert post[0] == arrays[i];
    assert post[1..] == arrays[i + 1..];
    assert AnnexB(post) == Frame(post[0]) + AnnexB(post[1..]);
  }

  /** Array `i` is framed, as a whole, right after the arrays before it. */
  lemma AnnexBSegment(arrays: seq<seq<Nalu>>, i: nat)
    requires i < |arrays|
    ensures var lo := ArraysSize(arrays[..i]);
            && lo + NalusSize(arrays[i]) <= ArraysSize(arrays)
            && AnnexB(arrays)[lo..lo + NalusSize(arrays[i])] == Frame(arrays[i])
  {
    var head := AnnexB(arrays[..i]);
    var here := Frame(arrays[i]);
    var rest := AnnexB(arrays[i + 1..]);
    AnnexBAround(arrays, i);
    MiddleSlice(head, here, rest);
    assert |head| == ArraysSize(arrays[..i]);
    assert |here| == NalusSize(arrays[i]);
  }

  /**
   The same placement for the nested arrays: unit `j` of array `i` begins,
   with its start code, at ArraysSize(arrays[..i]) + NalusSize(arrays[i][..j]).
   */
  lemma AnnexBPlacement(arrays: seq<seq<Nalu>>, i: nat, j: nat)
    requires i < |arrays| && j < |arrays[i]|
    ensures var off := ArraysSize(arrays[..i]) + NalusSize(arrays[i][..j]);
            var buf := AnnexB(arrays);
            var n := arrays[i][j];
            && off + 4 + |n| <= |buf|
            && buf[off..off + 4] == StartCode
            && buf[off + 4..off + 4 + |n|] == n
  {
    var n := arrays[i][j];
    var buf := AnnexB(arrays);
    var seg := Frame(arrays[i]);
    var lo := ArraysSize(arrays[..i]);
    var off := NalusSize(arrays[i][..j]);
    AnnexBSegment(arrays, i);
    FramePlacement(arrays[i], j);
    PlacementInSegment(buf, lo, seg, off, n);
  }

  /** Sizes of a prefix of the work never exceed the total: the cursor never
      runs past the buffer sized by the first pass. */
  lemma CursorBound(arrays: seq<seq<Nalu>>, i: nat, j: nat)
    requires i < |arrays| && j <= |arrays[i]|
    ensures ArraysSize(arrays[..i]) + NalusSize(arrays[i][..j]) <= ArraysSize(arrays)
  {
    assert arrays[..i] + arrays[i..] == arrays;
    AnnexBAppend(arrays[..i], arrays[i..]);
    assert AnnexB(arrays[i..]) == Frame(arrays[i]) + AnnexB(arrays[i + 1..]) by {
      assert arrays[i..][0] == arrays[i];
      assert arrays[i..][1..] == arrays[i + 1..];
    }
    NalusSizePrefix(arrays[i], j);
  }

  /** If no array holds a unit, the conversion is empty. */
  lemma {:induction false} NoNalusNoBytes(arrays: seq<seq<Nalu>>)
    requires forall i :: 0 <= i < |arrays| ==> |arrays[i]| == 0
    ensures AnnexB(arrays) == []
    decreases |arrays|
  {
    if |arrays| > 0 {
      assert arrays[0] == [];
      NoNalusNoBytes(arrays[1..]);
    }
  }

  /**
   Worked layout: one array with units of 5 and 10 bytes converts to
   (5 + 4) + (10 + 4) = 23 bytes, with start codes at offsets 0 and 9.
   */
  lemma TwoNaluLayout(n5: Nalu, n10: Nalu)
    requires |n5| == 5 && |n10| == 10
    ensures |AnnexB([[n5, n10]])| == 23
    ensures AnnexB([[n5, n10]])[0..4] == StartCode
    ensures AnnexB([[n5, n10]])[9..13] == StartCode
    ensures AnnexB([[n5, n10]]) == StartCode + n5 + StartCode + n10
  {
    var arrays := [[n5, n10]];
    assert Frame([n5, n10]) == StartCode + n5 + Frame([n10]) by {
      assert [n5, n10][1..] == [n10];
    }
    assert Frame([n10]) == StartCode + n10 + Frame([]);
    assert AnnexB(arrays) == Frame([n5, n10]) + AnnexB([]);
  }

  /* ---------------------------------------------------------------------
     The two-pass algorithm.
     --------------------------------------------------------------------- */

  /**
   The conversion as the handler performs it: the buffer is sized once by
   the first pass, and a second pass writes every array through a cursor.
   The result is the reference form, and the cursor ends exactly at the end
   of the buffer.
   */
  method WriteAnnexB(arrays: seq<seq<Nalu>>) returns (buf: seq<Byte>)
    requires ArraysSize(arrays) < TwoTo32
    ensures buf == AnnexB(arrays)
  {
    var size := ComputeSize(arrays);
    var a := new Byte[size];
    var cursor := 0;
    var i := 0;
    while i < |arrays|
      invariant 0 <= i <= |arrays|
      invariant a.Length == ArraysSize(arrays)
      invariant cursor == ArraysSize(arrays[..i]) <= a.Length
      invariant a[..cursor] == AnnexB(arrays[..i])
    {
      CursorBound(arrays, i, |arrays[i]|);
      assert arrays[i][..|arrays[i]|] == arrays[i];
      cursor := WriteArray(a, cursor, arrays[i]);
      assert arrays[..i + 1] == arrays[..i] + [arrays[i]];
      AnnexBSnoc(arrays[..i], arrays[i]);
      i := i + 1;
    }
    assert arrays[..i] == arrays;
    assert a[..] == a[..cursor];
    buf := a[..];
  }

  /**
   First pass: the sum of (size + 4) over every unit of every array, kept in
   a 32-bit AP4_Size; the requires rules out its wrap-around.
   */
  method ComputeSize(arrays: seq<seq<Nalu>>) returns (size: uint32)
    requires ArraysSize(arrays) < TwoTo32
    ensures size == |AnnexB(arrays)|
  {
    size := 0;
    var i := 0;
    while i < |arrays|
      invariant 0 <= i <= |arrays|
      invariant size == ArraysSize(arrays[..i])
    {
      var j := 0;
      while j < |arrays[i]|
        invariant 0 <= j <= |arrays[i]|
        invariant size == ArraysSize(arrays[..i]) + NalusSize(arrays[i][..j])
      {
        CursorBound(arrays, i, j + 1);
        assert arrays[i][..j + 1] == arrays[i][..j] + [arrays[i][j]];
        FrameSnoc(arrays[i][..j], arrays[i][j]);
        size := size + |arrays[i][j]| + 4;
        j := j + 1;
      }
      assert arrays[i][..j] == arrays[i];
      assert arrays[..i + 1] == arrays[..i] + [arrays[i]];
      AnnexBSnoc(arrays[..i], arrays[i]);
      i := i + 1;
    }
    assert arrays[..i] == arrays;
  }

  /** A prefix followed by freshly written bytes is one longer prefix. */
  lemma PrefixExtend(s: seq<Byte>, at: nat, p: seq<Byte>, q: seq<Byte>)
    requires at + |q| <= |s| && s[..at] == p && s[at..at + |q|] == q
    ensures s[..at + |q|] == p + q
  {
    assert s[..at + |q|] == s[..at] + s[at..at + |q|];
  }

  /** One step of the write pass over an array: the prefix written so far,
      extended by the next unit with its start code, is the framing of one
      more unit, and the cursor stays within the array's total. */
  lemma FrameStep(nalus: seq<Nalu>, j: nat, before: seq<Byte>, written: seq<Byte>)
    requires j < |nalus| && written == before + Frame(nalus[..j])
    ensures written + (StartCode + nalus[j]) == before + Frame(nalus[..j + 1])
    ensures NalusSize(nalus[..j + 1]) == NalusSize(nalus[..j]) + |nalus[j]| + 4
    ensures NalusSize(nalus[..j + 1]) <= NalusSize(nalus)
  {
    NalusSizePrefix(nalus, j + 1);
    assert nalus[..j + 1] == nalus[..j] + [nalus[j]];
    FrameSnoc(nalus[..j], nalus[j]);
  }

  /** Second pass over one array: writes each unit with its start code at
      the cursor and returns the cursor advanced by size + 4 per unit. */
  method WriteArray(a: array<Byte>, at: nat, nalus: seq<Nalu>) returns (end: nat)
    requires at + NalusSize(nalus) <= a.Length
    modifies a
    ensures end == at + NalusSize(nalus)
    ensures a[..end] == old(a[..at]) + Frame(nalus)
  {
    ghost var before := a[..at];
    end := at;
    var j := 0;
    while j < |nalus|
      invariant 0 <= j <= |nalus|
      invariant end == at + NalusSize(nalus[..j]) <= a.Length
      invariant a[..end] == before + Frame(nalus[..j])
    {
      var n := nalus[j];
      ghost var written := a[..end];
      FrameStep(nalus, j, before, written);
      WriteNalu(a, end, n);
      ghost var now := a[..];
      PrefixExtend(now, end, written, StartCode + n);
      assert now[..end + 4 + |n|] == a[..end + 4 + |n|];
      end := end + |n| + 4;
      j := j + 1;
    }
    assert nalus[..j] == nalus;
  }

  /** Writes the start code and then `n` at `at`, leaving the bytes before
      `at` as they were (the four stores and the memcpy of one unit). */
  method WriteNalu(a: array<Byte>, at: nat, n: Nalu)
    requires at + 4 + |n| <= a.Length
    modifies a
    ensures a[..at] == old(a[..at])
    ensures a[at..at + 4 + |n|] == StartCode + n
  {
    a[at] := 0;
    a[at + 1] := 0;
    a[at + 2] := 0;
    a[at + 3] := 1;
    var k := 0;
    while k < |n|
      invariant 0 <= k <= |n|
      invariant forall m :: 0 <= m < at ==> a[m] == old(a[m])
      invariant a[at] == 0 && a[at + 1] == 0 && a[at + 2] == 0 && a[at + 3] == 1
      invariant forall m :: 0 <= m < k ==> a[at + 4 + m] == n[m]
    {
      a[at + 4 + k] := n[k];
      k := k + 1;
    }
    assert a[at..at + 4 + |n|] == StartCode + n;
  }
}
