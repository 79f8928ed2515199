/** The CJK program's UTF-8 decoder, `codepoint_from_utf8`, and the driver
    loops' view of a C string as the sequence of codepoints it decodes to.

    The decoder dispatches on the lead byte only. Written with arithmetic on
    a byte `b`: `(b & 0xE0) == 0xC0` is `b / 32 == 6`, `(b & 0xF0) == 0xE0`
    is `b / 16 == 14`, `(b & 0xF8) == 0xF0` is `b / 8 == 30`, a payload mask
    `b & 0x1F` is `b % 32`, `<< 6` is `* 64`, and the `|` that joins payload
    fields of disjoint bit ranges is `+`. */
module Utf8 {

  newtype byte = b: int | 0 <= b < 256

  /** The decoded codepoint and how far the read pointer moved. */
  datatype Decoded = Decoded(codepoint: nat, consumed: nat)

  /** The length class of a lead byte (RFC 3629, section 3): 0xxxxxxx,
      110xxxxx, 1110xxxx and 11110xxx announce 1, 2, 3 and 4 bytes; any
      other byte is outside the four classes and gets 0. */
  function SequenceLength(lead: byte): (n: nat)
    ensures n <= 4
  {
    if lead < 0x80 then 1
    else if lead / 32 == 6 then 2
    else if lead / 16 == 14 then 3
    else if lead / 8 == 30 then 4
    else 0
  }

  /** The four classes as byte ranges. */
  lemma LeadClasses(lead: byte)
    ensures SequenceLength(lead) == 1 <==> lead <= 0x7F
    ensures SequenceLength(lead) == 2 <==> 0xC0 <= lead <= 0xDF
    ensures SequenceLength(lead) == 3 <==> 0xE0 <= lead <= 0xEF
    ensures SequenceLength(lead) == 4 <==> 0xF0 <= lead <= 0xF7
    ensures SequenceLength(lead) == 0 <==> (0x80 <= lead <= 0xBF || 0xF8 <= lead)
  {
  }

  /** `codepoint_from_utf8` reading at offset `i`. The bytes the lead byte
      announces must be there to be read; continuation bytes are not checked,
      overlong forms and surrogates are not rejected, and a lead byte outside
      the four classes yields codepoint 0 without moving the pointer. */
  function DecodeAt(s: seq<byte>, i: nat): (d: Decoded)
    requires i < |s| && i + SequenceLength(s[i]) <= |s|
    ensures d.consumed == SequenceLength(s[i])
    ensures d.consumed == 0 ==> d.codepoint == 0
    ensures d.consumed == 1 ==> d.codepoint == s[i] as nat
    ensures d.codepoint < 0x200000
    ensures d.consumed <= 3 ==> d.codepoint < 0x10000
  {
    var n := SequenceLength(s[i]);
    if n == 1 then
      Decoded(s[i] as nat, 1)
    else if n == 2 then
      Decoded((s[i] % 32) as nat * 64 + (s[i + 1] % 64) as nat, 2)
    else if n == 3 then
      Decoded((s[i] % 16) as nat * 4096 + (s[i + 1] % 64) as nat * 64 + (s[i + 2] % 64) as nat, 3)
    else if n == 4 then
      Decoded((s[i] % 8) as nat * 262144 + (s[i + 1] % 64) as nat * 4096
              + (s[i + 2] % 64) as nat * 64 + (s[i + 3] % 64) as nat, 4)
    else
      Decoded(0, 0)
  }

  /** The reference encoder of RFC 3629, section 3, for codepoints up to
      U+10FFFF (surrogates included: the bit layout is defined for them). */
  function Encode(cp: nat): (s: seq<byte>)
    requires cp < 0x110000
    ensures |s| == (if cp < 0x80 then 1 else if cp < 0x800 then 2 else if cp < 0x10000 then 3 else 4)
    ensures SequenceLength(s[0]) == |s|
    ensures forall k :: 1 <= k < |s| ==> 0x80 <= s[k] <= 0xBF
    ensures cp != 0 ==> forall k :: 0 <= k < |s| ==> s[k] != 0
  {
    if cp < 0x80 then
      [cp as byte]
    else if cp < 0x800 then
      [(0xC0 + cp / 64) as byte, (0x80 + cp % 64) as byte]
    else if cp < 0x10000 then
      [(0xE0 + cp / 4096) as byte, (0x80 + cp / 64 % 64) as byte, (0x80 + cp % 64) as byte]
    else
      [(0xF0 + cp / 262144) as byte, (0x80 + cp / 4096 % 64) as byte,
       (0x80 + cp / 64 % 64) as byte, (0x80 + cp % 64) as byte]
  }

  /** The decoder looks only at the bytes the lead byte announces, so it
      decodes a sequence the same wherever it sits in a buffer. */
  lemma DecodeInContext(pre: seq<byte>, e: seq<byte>, post: seq<byte>)
    requires 0 < |e| && SequenceLength(e[0]) <= |e|
    ensures var s := pre + e + post;
            |pre| < |s| && s[|pre|] == e[0] && DecodeAt(s, |pre|) == DecodeAt(e, 0)
  {
    var s := pre + e + post;
    forall k | 0 <= k < |e| ensures s[|pre| + k] == e[k] { }
  }

  lemma DecodeEncode2(cp: nat)
    requires 0x80 <= cp < 0x800
    ensures DecodeAt(Encode(cp), 0) == Decoded(cp, 2)
  {
    var e := Encode(cp);
    assert e[0] as int == 0xC0 + cp / 64 && e[1] as int == 0x80 + cp % 64;
    assert (e[0] % 32) as nat == cp / 64;
    assert (e[1] % 64) as nat == cp % 64;
  }

  lemma DecodeEncode3(cp: nat)
    requires 0x800 <= cp < 0x10000
    ensures DecodeAt(Encode(cp), 0) == Decoded(cp, 3)
  {
    var e := Encode(cp);
    var hi, mid, lo := cp / 4096, cp / 64 % 64, cp % 64;
    assert cp == hi * 4096 + mid * 64 + lo;
    assert e[0] as int == 0xE0 + hi && e[1] as int == 0x80 + mid && e[2] as int == 0x80 + lo;
    assert (e[0] % 16) as nat == hi;
    assert (e[1] % 64) as nat == mid;
    assert (e[2] % 64) as nat == lo;
  }

  /** The four six-bit fields of a codepoint below 0x110000, most
      significant first, put back together give the codepoint. */
  lemma Fields4(cp: nat)
    requires cp < 0x110000
    ensures cp / 262144 < 8
    ensures cp == cp / 262144 * 262144 + cp / 4096 % 64 * 4096 + cp / 64 % 64 * 64 + cp % 64
  {
    assert cp / 64 == cp / 4096 * 64 + cp / 64 % 64;
    assert cp / 4096 == cp / 262144 * 64 + cp / 4096 % 64;
  }

  lemma DecodeEncode4(cp: nat)
    requires 0x10000 <= cp < 0x110000
    ensures DecodeAt(Encode(cp), 0) == Decoded(cp, 4)
  {
    var e := Encode(cp);
    var top, hi, mid, lo := cp / 262144, cp / 4096 % 64, cp / 64 % 64, cp % 64;
    Fields4(cp);
    assert (e[0] % 8) as nat == top;
    assert (e[1] % 64) as nat == hi;
    assert (e[2] % 64) as nat == mid;
    assert (e[3] % 64) as nat == lo;
  }

  /** Decoding the RFC 3629 form of `cp`, wherever it sits in a buffer,
      gives `cp` back and consumes exactly its length: 1 byte below 0x80,
      2 below 0x800, 3 below 0x10000 and 4 up to 0x10FFFF. */
  lemma DecodeEncode(pre: seq<byte>, cp: nat, post: seq<byte>)
    requires cp < 0x110000
    ensures var s := pre + Encode(cp) + post;
            |pre| < |s| && |pre| + SequenceLength(s[|pre|]) <= |s|
            && DecodeAt(s, |pre|) == Decoded(cp, |Encode(cp)|)
  {
    DecodeInContext(pre, Encode(cp), post);
    if cp < 0x80 {
    } else if cp < 0x800 {
      DecodeEncode2(cp);
    } else if cp < 0x10000 {
      DecodeEncode3(cp);
    } else {
      DecodeEncode4(cp);
    }
  }

  /** The text of a C string: the bytes before the terminating NUL. */
  predicate CString(s: seq<byte>)
  {
    forall k :: 0 <= k < |s| ==> s[k] != 0
  }

  /** Starting at `i`, every lead byte is in one of the four classes and the
      sequences it announces tile the rest of the text exactly. This is what
      lets a `while (*p)` loop over `codepoint_from_utf8` stop at the NUL:
      a lead byte outside the classes leaves the pointer where it is and
      the loop would never end. */
  predicate FramedFrom(s: seq<byte>, i: nat)
    decreases |s| - i
  {
    i <= |s|
    && (i < |s| ==>
          && 0 < SequenceLength(s[i])
          && i + SequenceLength(s[i]) <= |s|
          && FramedFrom(s, i + SequenceLength(s[i])))
  }

  predicate Framed(s: seq<byte>)
  {
    FramedFrom(s, 0)
  }

  /** The codepoints a driver loop decodes from offset `i` to the end. */
  function CodepointsFrom(s: seq<byte>, i: nat): (cps: seq<nat>)
    requires FramedFrom(s, i)
    decreases |s| - i
  {
    if i == |s| then []
    else
      var d := DecodeAt(s, i);
      [d.codepoint] + CodepointsFrom(s, i + d.consumed)
  }

  function Codepoints(s: seq<byte>): (cps: seq<nat>)
    requires Framed(s)
  {
    CodepointsFrom(s, 0)
  }

  /** The decoding loop yields at most one codepoint per byte: each pass
      moves the pointer forward. */
  lemma {:induction false} CodepointsFromLength(s: seq<byte>, i: nat)
    requires FramedFrom(s, i)
    ensures |CodepointsFrom(s, i)| <= |s| - i
    decreases |s| - i
  {
    if i < |s| {
      DecodeStep(s, i);
      CodepointsFromLength(s, i + DecodeAt(s, i).consumed);
    }
  }

  /** Decoding at `p` yields the first of the codepoints from `p` on and
      moves to where the rest of them start. */
  lemma DecodeStep(s: seq<byte>, p: nat)
    requires FramedFrom(s, p) && p < |s|
    ensures var d := DecodeAt(s, p);
            && 0 < d.consumed && FramedFrom(s, p + d.consumed)
            && CodepointsFrom(s, p) == [d.codepoint] + CodepointsFrom(s, p + d.consumed)
  {
  }

  /** A driver loop's progress: the text is framed, and `done`, the
      codepoints decoded before offset `p`, followed by those decoded from
      `p` on, are all of the text's codepoints. */
  predicate Progress(s: seq<byte>, done: seq<nat>, p: nat)
  {
    Framed(s) && FramedFrom(s, p) && Codepoints(s) == done + CodepointsFrom(s, p)
  }

  /** A driver loop starts with nothing decoded at offset 0. */
  lemma ProgressStart(s: seq<byte>)
    requires Framed(s)
    ensures Progress(s, [], 0)
  {
    assert [] + CodepointsFrom(s, 0) == CodepointsFrom(s, 0);
  }

  /** One iteration of a driver loop: decoding at `p` yields the next
      codepoint of the text and leaves the rest framed. */
  lemma DecodeNext(s: seq<byte>, done: seq<nat>, p: nat, cp: nat, n: nat)
    requires Progress(s, done, p) && p < |s|
    requires DecodeAt(s, p) == Decoded(cp, n)
    ensures 0 < n && Progress(s, done + [cp], p + n)
    ensures |done| < |Codepoints(s)| && Codepoints(s)[|done|] == cp
  {
    DecodeStep(s, p);
    assert Codepoints(s) == (done + [cp]) + CodepointsFrom(s, p + n);
  }

  /** A driver loop that reached the end has decoded every codepoint. */
  lemma DecodeDone(s: seq<byte>, done: seq<nat>, p: nat)
    requires Progress(s, done, p) && p >= |s|
    ensures done == Codepoints(s)
  {
    assert CodepointsFrom(s, p) == [];
  }

  /** The RFC 3629 encoding of a codepoint sequence. */
  function EncodeAll(cps: seq<nat>): (s: seq<byte>)
    requires forall k :: 0 <= k < |cps| ==> cps[k] < 0x110000
  {
    if cps == [] then [] else Encode(cps[0]) + EncodeAll(cps[1..])
  }

  /** A sequence that decodes at `i` and is followed by a framed rest is
      framed from `i`, and its codepoint comes first. */
  lemma FramedCons(s: seq<byte>, i: nat, cp: nat, rest: seq<nat>)
    requires i < |s| && i + SequenceLength(s[i]) <= |s|
    requires DecodeAt(s, i).codepoint == cp && 0 < DecodeAt(s, i).consumed
    requires FramedFrom(s, i + DecodeAt(s, i).consumed)
    requires CodepointsFrom(s, i + DecodeAt(s, i).consumed) == rest
    ensures FramedFrom(s, i) && CodepointsFrom(s, i) == [cp] + rest
  {
  }

  /** Behind any prefix, an encoding split as `head + tail` is the prefix
      followed by `head`, then `tail`. */
  lemma EncodingAfter(pre: seq<byte>, cps: seq<nat>, head: seq<byte>, tail: seq<byte>)
    requires forall k :: 0 <= k < |cps| ==> cps[k] < 0x110000
    requires EncodeAll(cps) == head + tail
    ensures pre + EncodeAll(cps) == pre + head + tail
  {
  }

  /** Decoding, from any offset, the encoding of a sequence of codepoints
      that follows it recovers that sequence. */
  lemma {:induction false} EncodeAllFrom(pre: seq<byte>, cps: seq<nat>)
    requires forall k :: 0 <= k < |cps| ==> cps[k] < 0x110000
    ensures FramedFrom(pre + EncodeAll(cps), |pre|)
    ensures CodepointsFrom(pre + EncodeAll(cps), |pre|) == cps
    decreases |cps|
  {
    if cps == [] {
      assert pre + EncodeAll(cps) == pre;
    } else {
      var e := Encode(cps[0]);
      var rest := EncodeAll(cps[1..]);
      var s := pre + e + rest;
      DecodeEncode(pre, cps[0], rest);
      EncodeAllFrom(pre + e, cps[1..]);
      var d := DecodeAt(s, |pre|);
      assert d.codepoint == cps[0] && |pre| + d.consumed == |pre + e|;
      FramedCons(s, |pre|, cps[0], cps[1..]);
      assert [cps[0]] + cps[1..] == cps;
      assert EncodeAll(cps) == e + rest;
      EncodingAfter(pre, cps, e, rest);
    }
  }

  /** The encoding of non-NUL codepoints contains no NUL byte. */
  lemma {:induction false} EncodeAllNoNul(cps: seq<nat>)
    requires forall k :: 0 <= k < |cps| ==> 0 < cps[k] < 0x110000
    ensures CString(EncodeAll(cps))
    decreases |cps|
  {
    if cps != [] {
      var e := Encode(cps[0]);
      var rest := EncodeAll(cps[1..]);
      EncodeAllNoNul(cps[1..]);
      forall k | 0 <= k < |e + rest| ensures (e + rest)[k] != 0 {
        if k >= |e| { assert (e + rest)[k] == rest[k - |e|]; }
      }
    }
  }

  /** Round trip over whole strings: any sequence of non-NUL codepoints up to
      U+10FFFF, encoded, is a framed C string that decodes back to itself. */
  lemma EncodeAllRoundTrip(cps: seq<nat>)
    requires forall k :: 0 <= k < |cps| ==> 0 < cps[k] < 0x110000
    ensures CString(EncodeAll(cps)) && Framed(EncodeAll(cps))
    ensures Codepoints(EncodeAll(cps)) == cps
  {
    EncodeAllFrom([], cps);
    EncodeAllNoNul(cps);
    assert [] + EncodeAll(cps) == EncodeAll(cps);
  }

  /** No lead byte met by the decoding loop from offset `i` on is 0xF0 or
      above; continuation bytes are not constrained. */
  predicate LeadsBelowF0(s: seq<byte>, i: nat)
    decreases |s| - i
  {
    i >= |s|
    || (s[i] < 0xF0 && (0 < SequenceLength(s[i]) ==> LeadsBelowF0(s, i + SequenceLength(s[i]))))
  }

  /** A text with no four-byte lead byte decodes only to codepoints below
      0x10000, so each of them indexes a 65536-entry table. */
  lemma {:induction false} NoFourByteLeadsFitTable(s: seq<byte>, i: nat)
    requires FramedFrom(s, i) && LeadsBelowF0(s, i)
    ensures forall k :: 0 <= k < |CodepointsFrom(s, i)| ==> CodepointsFrom(s, i)[k] < 0x10000
    decreases |s| - i
  {
    if i < |s| {
      NoFourByteLeadsFitTable(s, i + SequenceLength(s[i]));
    }
  }

  /** The decoder reads only the six payload bits of each continuation byte:
      two buffers that agree on the lead byte and on those bits decode alike,
      whatever the top two bits of the continuation bytes are. */
  lemma DecodeIgnoresContinuationTags(s: seq<byte>, t: seq<byte>, i: nat)
    requires i < |s| && i + SequenceLength(s[i]) <= |s|
    requires i < |t| && t[i] == s[i] && i + SequenceLength(t[i]) <= |t|
    requires forall j :: i < j < i + SequenceLength(s[i]) ==> s[j] % 64 == t[j] % 64
    ensures DecodeAt(s, i) == DecodeAt(t, i)
  {
    var n := SequenceLength(s[i]);
    if n >= 2 { assert s[i + 1] % 64 == t[i + 1] % 64; }
    if n >= 3 { assert s[i + 2] % 64 == t[i + 2] % 64; }
    if n == 4 { assert s[i + 3] % 64 == t[i + 3] % 64; }
  }

  /** Only the lead bytes count: E4 F5 A0, whose middle byte is 0xF5, is
      framed and decodes to U+4D60, which fits the table. */
  lemma ContinuationMayExceedF0()
    ensures FramedFrom([0xE4, 0xF5, 0xA0], 0) && LeadsBelowF0([0xE4, 0xF5, 0xA0], 0)
    ensures CodepointsFrom([0xE4, 0xF5, 0xA0], 0) == [0x4D60]
  {
    var s: seq<byte> := [0xE4, 0xF5, 0xA0];
    assert DecodeAt(s, 0) == Decoded(0x4D60, 3);
    NoFourByteLeadsFitTable(s, 0);
  }

  /** As written, a byte in 0x80-0xBF or 0xF8-0xFF met where a lead byte is
      expected decodes to 0 without moving the pointer: a `while (*p)` loop
      that reaches it never ends, so no text containing one at a lead
      position is framed. */
  lemma StrayByteStalls(s: seq<byte>, i: nat)
    requires i < |s| && ((0x80 <= s[i] <= 0xBF) || 0xF8 <= s[i])
    ensures DecodeAt(s, i) == Decoded(0, 0) && !FramedFrom(s, i)
  {
  }

  /** As written, a sequence cut short by the end of the text would read
      past the terminating NUL: such a text is not framed. */
  lemma TruncatedSequenceOverruns(s: seq<byte>, i: nat)
    requires i < |s| && |s| < i + SequenceLength(s[i])
    ensures !FramedFrom(s, i)
  {
  }

  /** "你" (E4 BD A0) is U+4F60, read in three bytes. */
  lemma DecodeNi()
    ensures DecodeAt([0xE4, 0xBD, 0xA0], 0) == Decoded(0x4F60, 3)
  {
  }

  /** As written, the overlong form C0 80 is accepted as U+0000, the
      surrogate form ED A0 80 as U+D800, and C3 41 (a continuation byte
      replaced by 'A') as U+00C1. */
  lemma DecodeAcceptsMalformed()
    ensures DecodeAt([0xC0, 0x80], 0) == Decoded(0, 2)
    ensures DecodeAt([0xED, 0xA0, 0x80], 0) == Decoded(0xD800, 3)
    ensures DecodeAt([0xC3, 0x41], 0) == Decoded(0xC1, 2)
  {
  }
}
