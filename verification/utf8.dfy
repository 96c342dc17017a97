/**
 * The UTF-8 decoder `utf8_get_next_char` and the decode loop of
 * `gfb_text`. The decoder accepts exactly the byte sequences of section 3
 * of RFC 3629 (shortest form, no surrogates, at most U+10FFFF) and
 * consumes one byte of each rejected sequence up to the first byte that
 * does not fit. The glyph rendering that follows the loop is not modelled.
 */
module Utf8 {
  import opened Surfaces

  /** `unsigned char`. */
  type Byte = bv8

  /** `is_trail(c)`: a continuation byte `10xxxxxx`. */
  predicate IsTrail(c: Byte)
  {
    c > 0x7F && c < 0xC0
  }

  /** A Unicode scalar value: at most U+10FFFF and not a surrogate. */
  predicate IsScalar(cp: bv32)
  {
    cp <= 0x10FFFF && !(0xD800 <= cp <= 0xDFFF)
  }

  /** Bytes of the shortest UTF-8 form of `cp`. */
  function EncodedLength(cp: bv32): nat
  {
    if cp < 0x80 then 1 else if cp < 0x800 then 2 else if cp < 0x10000 then 3 else 4
  }

  /**
   * The UTF-8 encoding of a scalar value (section 3 of RFC 3629): the
   * reference against which the decoder is checked.
   */
  function Encode(cp: bv32): (bs: seq<Byte>)
    requires IsScalar(cp)
    ensures |bs| == EncodedLength(cp)
  {
    if cp < 0x80 then [cp as Byte]
    else if cp < 0x800 then
      [(0xC0 | (cp >> 6)) as Byte, (0x80 | (cp & 0x3F)) as Byte]
    else if cp < 0x10000 then
      [(0xE0 | (cp >> 12)) as Byte, (0x80 | ((cp >> 6) & 0x3F)) as Byte, (0x80 | (cp & 0x3F)) as Byte]
    else
      [(0xF0 | (cp >> 18)) as Byte, (0x80 | ((cp >> 12) & 0x3F)) as Byte,
       (0x80 | ((cp >> 6) & 0x3F)) as Byte, (0x80 | (cp & 0x3F)) as Byte]
  }

  // ---------------------------------------------------------------------
  // The decoder.

  /** The two-byte branch: five bits from the lead, six from the trail. */
  function Decode2(b0: Byte, b1: Byte): bv32
  {
    ((b0 as bv32 & 0x1F) << 6) | (b1 as bv32 & 0x3F)
  }

  /** The three-byte branch; the lead is masked with `0x1F` as in the source, which keeps four bits for `0xE0..0xEF`. */
  function Decode3(b0: Byte, b1: Byte, b2: Byte): bv32
  {
    ((b0 as bv32 & 0x1F) << 12) | ((b1 as bv32 & 0x3F) << 6) | (b2 as bv32 & 0x3F)
  }

  /** The four-byte branch: three bits from the lead, six from each trail. */
  function Decode4(b0: Byte, b1: Byte, b2: Byte, b3: Byte): bv32
  {
    ((b0 as bv32 & 0x7) << 18) | ((b1 as bv32 & 0x3F) << 12) | ((b2 as bv32 & 0x3F) << 6) | (b3 as bv32 & 0x3F)
  }

  /** Lowest second byte the source admits after a three- or four-byte lead. */
  function SecondMin(c: Byte): Byte
  {
    if c == 0xE0 then 0xA0 else if c == 0xF0 then 0x90 else 0x80
  }

  /** Highest second byte the source admits after a three- or four-byte lead. */
  function SecondMax(c: Byte): Byte
  {
    if c == 0xED then 0x9F else if c == 0xF4 then 0x8F else 0xBF
  }

  /** The two-byte form covers `0x80..0x7FF` and re-encodes to its own bytes. */
  lemma Decode2Facts(b0: Byte, b1: Byte)
    requires 0xC2 <= b0 < 0xE0 && IsTrail(b1)
    ensures IsScalar(Decode2(b0, b1)) && EncodedLength(Decode2(b0, b1)) == 2
    ensures Encode(Decode2(b0, b1)) == [b0, b1]
  {
    var cp := Decode2(b0, b1);
    assert 0x80 <= cp < 0x800;
    assert (0xC0 | (cp >> 6)) as Byte == b0;
    assert (0x80 | (cp & 0x3F)) as Byte == b1;
  }

  /** The three-byte form covers `0x800..0xFFFF` without the surrogates and re-encodes to its own bytes. */
  lemma Decode3Facts(b0: Byte, b1: Byte, b2: Byte)
    requires 0xE0 <= b0 < 0xF0 && SecondMin(b0) <= b1 <= SecondMax(b0) && IsTrail(b2)
    ensures IsScalar(Decode3(b0, b1, b2)) && EncodedLength(Decode3(b0, b1, b2)) == 3
    ensures Encode(Decode3(b0, b1, b2)) == [b0, b1, b2]
  {
    var cp := Decode3(b0, b1, b2);
    Decode3Range(b0, b1, b2);
    Decode3Lead(b0, b1, b2);
    Decode3Trails(b0, b1, b2);
  }

  lemma Decode3Range(b0: Byte, b1: Byte, b2: Byte)
    requires 0xE0 <= b0 < 0xF0 && SecondMin(b0) <= b1 <= SecondMax(b0) && IsTrail(b2)
    ensures 0x800 <= Decode3(b0, b1, b2) < 0x10000 && !(0xD800 <= Decode3(b0, b1, b2) <= 0xDFFF)
  {
  }

  lemma Decode3Lead(b0: Byte, b1: Byte, b2: Byte)
    requires 0xE0 <= b0 < 0xF0 && IsTrail(b1) && IsTrail(b2)
    ensures (0xE0 | (Decode3(b0, b1, b2) >> 12)) as Byte == b0
  {
  }

  lemma Decode3Trails(b0: Byte, b1: Byte, b2: Byte)
    requires IsTrail(b1) && IsTrail(b2)
    ensures (0x80 | ((Decode3(b0, b1, b2) >> 6) & 0x3F)) as Byte == b1
    ensures (0x80 | (Decode3(b0, b1, b2) & 0x3F)) as Byte == b2
  {
  }

  /** The four-byte form covers `0x10000..0x10FFFF` and re-encodes to its own bytes. */
  lemma Decode4Facts(b0: Byte, b1: Byte, b2: Byte, b3: Byte)
    requires 0xF0 <= b0 < 0xF5 && SecondMin(b0) <= b1 <= SecondMax(b0) && IsTrail(b2) && IsTrail(b3)
    ensures IsScalar(Decode4(b0, b1, b2, b3)) && EncodedLength(Decode4(b0, b1, b2, b3)) == 4
    ensures Encode(Decode4(b0, b1, b2, b3)) == [b0, b1, b2, b3]
  {
    Decode4Range(b0, b1, b2, b3);
    Decode4Lead(b0, b1, b2, b3);
    Decode4Trails(b0, b1, b2, b3);
  }

  lemma Decode4Range(b0: Byte, b1: Byte, b2: Byte, b3: Byte)
    requires 0xF0 <= b0 < 0xF5 && SecondMin(b0) <= b1 <= SecondMax(b0) && IsTrail(b2) && IsTrail(b3)
    ensures 0x10000 <= Decode4(b0, b1, b2, b3) <= 0x10FFFF
  {
  }

  lemma Decode4Lead(b0: Byte, b1: Byte, b2: Byte, b3: Byte)
    requires 0xF0 <= b0 < 0xF5 && IsTrail(b1) && IsTrail(b2) && IsTrail(b3)
    ensures (0xF0 | (Decode4(b0, b1, b2, b3) >> 18)) as Byte == b0
  {
  }

  lemma Decode4Trails(b0: Byte, b1: Byte, b2: Byte, b3: Byte)
    requires IsTrail(b1) && IsTrail(b2) && IsTrail(b3)
    ensures (0x80 | ((Decode4(b0, b1, b2, b3) >> 12) & 0x3F)) as Byte == b1
    ensures (0x80 | ((Decode4(b0, b1, b2, b3) >> 6) & 0x3F)) as Byte == b2
    ensures (0x80 | (Decode4(b0, b1, b2, b3) & 0x3F)) as Byte == b3
  {
  }

  /** What one call reports. */
  datatype Next =
    | End                                              // returned 0: the cursor is at or past the end
    | Char(valid: bool, codePoint: bv32, cursor: nat)  // returned 1, with `*is_valid`, `*code_point` and the new `*cursor`

  /**
   * `utf8_get_next_char`: decodes the character at `cursor`. A rejected
   * sequence reports code point 0 and skips the bytes that were read
   * before the one that did not fit. (The source's `rest_size < 1` branch
   * cannot be taken once `cursor < str_size` and is omitted.)
   */
  function NextChar(str: seq<Byte>, cursor: nat): (r: Next)
    ensures r.End? <==> cursor >= |str|
    ensures r.Char? ==> cursor < r.cursor <= cursor + 4 && r.cursor <= |str|
    ensures r.Char? && !r.valid ==> r.codePoint == 0
    ensures r.Char? && r.valid ==>
      IsScalar(r.codePoint) && r.cursor == cursor + EncodedLength(r.codePoint)
  {
    if cursor >= |str| then End
    else
      var c := str[cursor];
      if c < 0x80 then Char(true, c as bv32, cursor + 1)
      else if c < 0xC2 then Char(false, 0, cursor + 1)
      else if c < 0xE0 then Next2(str, cursor)
      else if c < 0xF0 then Next3(str, cursor)
      else if c < 0xF5 then Next4(str, cursor)
      else Char(false, 0, cursor + 1)
  }

  /** The branch for a two-byte lead `0xC2..0xDF`. */
  function Next2(str: seq<Byte>, pos: nat): (r: Next)
    requires pos < |str| && 0xC2 <= str[pos] < 0xE0
    ensures r.Char? && pos < r.cursor <= pos + 2 && r.cursor <= |str|
    ensures !r.valid ==> r.codePoint == 0
    ensures r.valid ==>
      IsScalar(r.codePoint) && r.cursor == pos + EncodedLength(r.codePoint) && str[pos..r.cursor] == Encode(r.codePoint)
  {
    var rest := |str| - pos;
    if rest < 2 || !IsTrail(str[pos + 1]) then Char(false, 0, pos + 1)
    else
      Decode2Facts(str[pos], str[pos + 1]);
      assert str[pos..pos + 2] == [str[pos], str[pos + 1]];
      Char(true, Decode2(str[pos], str[pos + 1]), pos + 2)
  }

  /** The branch for a three-byte lead `0xE0..0xEF`. */
  function Next3(str: seq<Byte>, pos: nat): (r: Next)
    requires pos < |str| && 0xE0 <= str[pos] < 0xF0
    ensures r.Char? && pos < r.cursor <= pos + 3 && r.cursor <= |str|
    ensures !r.valid ==> r.codePoint == 0
    ensures r.valid ==>
      IsScalar(r.codePoint) && r.cursor == pos + EncodedLength(r.codePoint) && str[pos..r.cursor] == Encode(r.codePoint)
  {
    var rest, c := |str| - pos, str[pos];
    if rest < 2 || str[pos + 1] < SecondMin(c) || SecondMax(c) < str[pos + 1] then Char(false, 0, pos + 1)
    else if rest < 3 || !IsTrail(str[pos + 2]) then Char(false, 0, pos + 2)
    else
      Decode3Facts(c, str[pos + 1], str[pos + 2]);
      assert str[pos..pos + 3] == [c, str[pos + 1], str[pos + 2]];
      Char(true, Decode3(c, str[pos + 1], str[pos + 2]), pos + 3)
  }

  /** The branch for a four-byte lead `0xF0..0xF4`. */
  function Next4(str: seq<Byte>, pos: nat): (r: Next)
    requires pos < |str| && 0xF0 <= str[pos] < 0xF5
    ensures r.Char? && pos < r.cursor <= pos + 4 && r.cursor <= |str|
    ensures !r.valid ==> r.codePoint == 0
    ensures r.valid ==>
      IsScalar(r.codePoint) && r.cursor == pos + EncodedLength(r.codePoint) && str[pos..r.cursor] == Encode(r.codePoint)
  {
    var rest, c := |str| - pos, str[pos];
    if rest < 2 || str[pos + 1] < SecondMin(c) || SecondMax(c) < str[pos + 1] then Char(false, 0, pos + 1)
    else if rest < 3 || !IsTrail(str[pos + 2]) then Char(false, 0, pos + 2)
    else if rest < 4 || !IsTrail(str[pos + 3]) then Char(false, 0, pos + 3)
    else
      Decode4Facts(c, str[pos + 1], str[pos + 2], str[pos + 3]);
      assert str[pos..pos + 4] == [c, str[pos + 1], str[pos + 2], str[pos + 3]];
      Char(true, Decode4(c, str[pos + 1], str[pos + 2], str[pos + 3]), pos + 4)
  }

  /**
   * Encoding inverts decoding: the bytes a valid character spans are
   * exactly the encoding of the code point reported, so the decoder
   * accepts nothing but the sequences of RFC 3629.
   */
  lemma NextCharIsEncoding(str: seq<Byte>, cursor: nat)
    requires NextChar(str, cursor).Char? && NextChar(str, cursor).valid
    ensures str[cursor..NextChar(str, cursor).cursor] == Encode(NextChar(str, cursor).codePoint)
  {
    var c := str[cursor];
    if c < 0x80 {
      assert str[cursor..cursor + 1] == [c];
    }
  }

  lemma Encode2Accepted(cp: bv32)
    requires 0x80 <= cp < 0x800
    ensures var b0, b1 := (0xC0 | (cp >> 6)) as Byte, (0x80 | (cp & 0x3F)) as Byte;
      0xC2 <= b0 < 0xE0 && IsTrail(b1) && Decode2(b0, b1) == cp
  {
  }

  lemma Encode3Accepted(cp: bv32)
    requires 0x800 <= cp < 0x10000 && !(0xD800 <= cp <= 0xDFFF)
    ensures var b0, b1, b2 := (0xE0 | (cp >> 12)) as Byte, (0x80 | ((cp >> 6) & 0x3F)) as Byte, (0x80 | (cp & 0x3F)) as Byte;
      0xE0 <= b0 < 0xF0 && SecondMin(b0) <= b1 <= SecondMax(b0) && IsTrail(b2) && Decode3(b0, b1, b2) == cp
  {
  }

  lemma Encode4Accepted(cp: bv32)
    requires 0x10000 <= cp <= 0x10FFFF
    ensures var b0, b1, b2, b3 := (0xF0 | (cp >> 18)) as Byte, (0x80 | ((cp >> 12) & 0x3F)) as Byte,
                                  (0x80 | ((cp >> 6) & 0x3F)) as Byte, (0x80 | (cp & 0x3F)) as Byte;
      0xF0 <= b0 < 0xF5 && SecondMin(b0) <= b1 <= SecondMax(b0) && IsTrail(b2) && IsTrail(b3)
      && Decode4(b0, b1, b2, b3) == cp
  {
    Encode4Lead(cp);
    Encode4Second(cp);
    Encode4Decodes(cp);
  }

  lemma Encode4Lead(cp: bv32)
    requires 0x10000 <= cp <= 0x10FFFF
    ensures 0xF0 <= (0xF0 | (cp >> 18)) as Byte < 0xF5
  {
  }

  lemma Encode4Second(cp: bv32)
    requires 0x10000 <= cp <= 0x10FFFF
    ensures var b0, b1 := (0xF0 | (cp >> 18)) as Byte, (0x80 | ((cp >> 12) & 0x3F)) as Byte;
      SecondMin(b0) <= b1 <= SecondMax(b0)
  {
  }

  lemma Encode4Decodes(cp: bv32)
    requires 0x10000 <= cp <= 0x10FFFF
    ensures var b0, b1, b2, b3 := (0xF0 | (cp >> 18)) as Byte, (0x80 | ((cp >> 12) & 0x3F)) as Byte,
                                  (0x80 | ((cp >> 6) & 0x3F)) as Byte, (0x80 | (cp & 0x3F)) as Byte;
      Decode4(b0, b1, b2, b3) == cp
  {
  }

  /**
   * Decoding inverts encoding: at the start of an encoded scalar value,
   * wherever it sits in the string, the decoder reports that value as
   * valid and moves past exactly its bytes.
   */
  lemma DecodeEncode(pre: seq<Byte>, cp: bv32, post: seq<Byte>)
    requires IsScalar(cp)
    ensures NextChar(pre + Encode(cp) + post, |pre|) == Char(true, cp, |pre| + EncodedLength(cp))
  {
    var bs := Encode(cp);
    var str := pre + bs + post;
    var p := |pre|;
    assert str[p..p + |bs|] == bs;
    if cp < 0x80 {
      assert str[p] == bs[0];
    } else if cp < 0x800 {
      DecodeEncode2(str, p, cp);
    } else if cp < 0x10000 {
      DecodeEncode3(str, p, cp);
    } else {
      DecodeEncode4(str, p, cp);
    }
  }

  lemma DecodeEncode2(str: seq<Byte>, p: nat, cp: bv32)
    requires 0x80 <= cp < 0x800 && p + 2 <= |str| && str[p..p + 2] == Encode(cp)
    ensures NextChar(str, p) == Char(true, cp, p + 2)
  {
    Encode2Accepted(cp);
    assert str[p] == Encode(cp)[0] && str[p + 1] == Encode(cp)[1];
  }

  lemma DecodeEncode3(str: seq<Byte>, p: nat, cp: bv32)
    requires 0x800 <= cp < 0x10000 && !(0xD800 <= cp <= 0xDFFF) && p + 3 <= |str| && str[p..p + 3] == Encode(cp)
    ensures NextChar(str, p) == Char(true, cp, p + 3)
  {
    Encode3Accepted(cp);
    assert str[p] == Encode(cp)[0] && str[p + 1] == Encode(cp)[1] && str[p + 2] == Encode(cp)[2];
    assert NextChar(str, p) == Next3(str, p);
  }

  lemma DecodeEncode4(str: seq<Byte>, p: nat, cp: bv32)
    requires 0x10000 <= cp <= 0x10FFFF && p + 4 <= |str| && str[p..p + 4] == Encode(cp)
    ensures NextChar(str, p) == Char(true, cp, p + 4)
  {
    Encode4Accepted(cp);
    assert str[p] == Encode(cp)[0] && str[p + 1] == Encode(cp)[1] && str[p + 2] == Encode(cp)[2] && str[p + 3] == Encode(cp)[3];
    assert NextChar(str, p) == Next4(str, p);
  }

  // ---------------------------------------------------------------------
  // The decode loop of gfb_text.

  /** `static uint16_t text[1024]`: the buffer the loop decodes into. */
  const TextCapacity: nat := 1024

  /** `MAX_GFB_FONT`: slots of the font store. */
  const MaxFonts: nat := 10

  /** The `uint16_t` a code point becomes when stored in `text[]`. */
  function Truncate16(cp: bv32): bv16
  {
    (cp & 0xFFFF) as bv16
  }

  /** `strlen`: bytes before the first NUL of a terminated string. */
  function StrLen(buf: seq<Byte>): (n: nat)
    requires 0 in buf
    ensures n < |buf| && buf[n] == 0
    ensures forall i :: 0 <= i < n ==> buf[i] != 0
  {
    if buf[0] == 0 then 0
    else
      assert 0 in buf[1..];
      var n := StrLen(buf[1..]);
      assert forall i :: 1 <= i < n + 1 ==> buf[i] == buf[1..][i - 1];
      n + 1
  }

  /**
   * Reference for the loop: starting at `cursor` with `n` characters still
   * allowed, the code points kept — each call that reports a character uses
   * one of the `n`, and only valid non-zero code points are stored.
   */
  function Kept(str: seq<Byte>, cursor: nat, n: nat): seq<bv16>
    decreases |str| - cursor, 1
  {
    if cursor >= |str| then [] else KeptAt(str, cursor, n)
  }

  /** The loop body once the decoder has reported a character at `cursor`. */
  function KeptAt(str: seq<Byte>, cursor: nat, n: nat): seq<bv16>
    requires cursor < |str|
    decreases |str| - cursor, 0
  {
    var r := NextChar(str, cursor);
    if n == 0 then [] else Keep(r) + Kept(str, r.cursor, n - 1)
  }

  /** What one reported character adds to `text[]`: its low 16 bits if it is valid and non-zero. */
  function Keep(r: Next): seq<bv16>
  {
    if r.Char? && r.valid && r.codePoint != 0 then [Truncate16(r.codePoint)] else []
  }

  /** One step of the loop: the end of input or an exhausted count keeps nothing more, a reported character contributes `Keep` and moves the cursor. */
  lemma KeptStep(str: seq<Byte>, cursor: nat, n: nat, r: Next)
    requires r == NextChar(str, cursor)
    ensures r.End? || n == 0 ==> Kept(str, cursor, n) == []
    ensures r.Char? && n > 0 ==> Kept(str, cursor, n) == Keep(r) + Kept(str, r.cursor, n - 1)
  {
    if cursor < |str| {
      assert Kept(str, cursor, n) == KeptAt(str, cursor, n);
    }
  }

  /**
   * The call `utf8_get_next_char(str, zlen, &cursor, ...)` as the loop sees
   * it: what it reports and how that decides the rest of the loop.
   */
  method ReadChar(str: seq<Byte>, cursor: nat, n: nat) returns (r: Next)
    ensures r.End? <==> cursor >= |str|
    ensures r.Char? ==> cursor < r.cursor <= |str|
    ensures r.End? || n == 0 ==> Kept(str, cursor, n) == []
    ensures r.Char? && n > 0 ==> Kept(str, cursor, n) == Keep(r) + Kept(str, r.cursor, n - 1)
  {
    r := NextChar(str, cursor);
    KeptStep(str, cursor, n, r);
  }

  /** At most `n` code points are kept. */
  lemma {:induction false} KeptBound(str: seq<Byte>, cursor: nat, n: nat)
    ensures |Kept(str, cursor, n)| <= n
    decreases |str| - cursor
  {
    var r := NextChar(str, cursor);
    if !r.End? && n > 0 {
      KeptBound(str, r.cursor, n - 1);
    }
  }

  /** The code points of a sequence, each encoded in turn. */
  function EncodeAll(cps: seq<bv32>): (bs: seq<Byte>)
    requires forall i :: 0 <= i < |cps| ==> IsScalar(cps[i])
  {
    if cps == [] then [] else Encode(cps[0]) + EncodeAll(cps[1..])
  }

  /** The values the loop should keep from `cps`: every non-zero one, truncated. */
  function NonZero16(cps: seq<bv32>): seq<bv16>
  {
    if cps == [] then []
    else (if cps[0] != 0 then [Truncate16(cps[0])] else []) + NonZero16(cps[1..])
  }

  /**
   * The loop over a well-formed string reads one character per scalar
   * value: with at least `|cps|` characters allowed, it keeps exactly the
   * non-zero ones, each cut to its low 16 bits.
   */
  lemma {:induction false} KeptEncoded(pre: seq<Byte>, cps: seq<bv32>, n: nat)
    requires forall i :: 0 <= i < |cps| ==> IsScalar(cps[i])
    requires n >= |cps|
    ensures Kept(pre + EncodeAll(cps), |pre|, n) == NonZero16(cps)
    decreases |cps|
  {
    if cps == [] {
      assert pre + EncodeAll(cps) == pre;
    } else {
      var cp, tail := cps[0], cps[1..];
      assert forall i :: 0 <= i < |tail| ==> IsScalar(tail[i]) by {
        forall i | 0 <= i < |tail| ensures IsScalar(tail[i]) {
          assert tail[i] == cps[i + 1];
        }
      }
      var rest := EncodeAll(tail);
      var pre' := pre + Encode(cp);
      var str := pre + EncodeAll(cps);
      assert str == pre + Encode(cp) + rest;
      assert str == pre' + rest;
      DecodeEncode(pre, cp, rest);
      assert |pre'| == |pre| + EncodedLength(cp);
      var r := NextChar(str, |pre|);
      assert r == Char(true, cp, |pre'|);
      KeptStep(str, |pre|, n, r);
      KeptEncoded(pre', tail, n - 1);
      assert Kept(str, |pre'|, n - 1) == NonZero16(tail);
      var head := if cp != 0 then [Truncate16(cp)] else [];
      assert Keep(r) == head;
      assert NonZero16(cps) == head + NonZero16(tail);
    }
  }

  /** Storing the next kept value at `text[i]` extends the stored prefix and leaves the rest alone. */
  lemma Store16(buf: seq<bv16>, i: nat, v: bv16, tail: seq<bv16>, all: seq<bv16>, orig: seq<bv16>)
    requires i <= |buf| && buf[..i] + ([v] + tail) == all
    requires i < |buf| || |all| <= |buf|
    requires |orig| == |buf| && buf[i..] == orig[i..]
    ensures i < |buf|
    ensures buf[i := v][..i + 1] + tail == all
    ensures buf[i := v][i + 1..] == orig[i + 1..]
  {
    assert |buf[..i] + ([v] + tail)| == i + 1 + |tail|;
    assert buf[i := v][..i + 1] == buf[..i] + [v];
    assert buf[..i] + ([v] + tail) == buf[..i] + [v] + tail;
    assert buf[i + 1..] == buf[i..][1..];
  }

  /**
   * The loop of `gfb_text` as written: `n` starts as `count` cut to
   * `unsigned int`, every call that reports a character (valid or not)
   * uses one of `n`, and a valid non-zero code point is stored at
   * `text[i++]`. The loop has no bound on `i`, so the caller must not let
   * it reach past the buffer.
   */
  method DecodeText(str: seq<Byte>, count: nat, text: seq<bv16>) returns (text': seq<bv16>, i: nat)
    requires |text| == TextCapacity
    requires |Kept(str, 0, count % 0x1_0000_0000)| <= TextCapacity
    ensures |text'| == TextCapacity && i <= TextCapacity
    ensures text'[..i] == Kept(str, 0, count % 0x1_0000_0000)
    ensures text'[i..] == text[i..]
  {
    var cursor: nat := 0;
    var n: nat := count % 0x1_0000_0000;
    ghost var all := Kept(str, 0, count % 0x1_0000_0000);
    text', i := text, 0;
    while true
      invariant cursor <= |str| && i <= TextCapacity && |text'| == TextCapacity
      invariant text'[..i] + Kept(str, cursor, n) == all
      invariant text'[i..] == text[i..]
      decreases |str| - cursor
    {
      // The source moves the cursor inside the call, before the test of
      // `n`; the cursor is not read after the loop, so the order is immaterial.
      ghost var pending := Kept(str, cursor, n);
      var r := ReadChar(str, cursor, n);
      if r.End? || n == 0 {
        break;
      }
      ghost var tail := Kept(str, r.cursor, n - 1);
      assert pending == Keep(r) + tail;
      cursor := r.cursor;
      if r.valid && r.codePoint != 0 {
        var v := Truncate16(r.codePoint);
        assert pending == [v] + tail;
        // `text[i++]` stays inside the buffer: what is stored so far plus this value is part of the whole.
        Store16(text', i, v, tail, all, text);
        text' := text'[i := v];
        i := i + 1;
      } else {
        assert pending == tail;
      }
      n := n - 1;
    }
  }

  /**
   * The loop overruns `text[1024]`: a string of 1025 `'A'` bytes with
   * `count` 1025 stores 1025 code points.
   */
  lemma TextOverruns()
    ensures var str := seq(1025, _ => 0x41 as Byte);
      |Kept(str, 0, 1025 % 0x1_0000_0000)| == 1025 > TextCapacity
  {
    var cps := seq(1025, _ => 0x41 as bv32);
    var str := seq(1025, _ => 0x41 as Byte);
    assert EncodeAll(cps) == str by {
      AsciiEncoded(cps);
    }
    KeptEncoded([], cps, 1025);
    assert [] + str == str;
    NonZeroAllKept(cps);
  }

  /** A sequence of ASCII code points encodes byte for byte. */
  lemma {:induction false} AsciiEncoded(cps: seq<bv32>)
    requires forall i :: 0 <= i < |cps| ==> 0 < cps[i] < 0x80
    ensures forall i :: 0 <= i < |cps| ==> IsScalar(cps[i])
    ensures |EncodeAll(cps)| == |cps|
    ensures forall i :: 0 <= i < |cps| ==> EncodeAll(cps)[i] == cps[i] as Byte
    decreases |cps|
  {
    if cps != [] {
      AsciiEncoded(cps[1..]);
    }
  }

  /** With no zero among them, every code point is kept. */
  lemma {:induction false} NonZeroAllKept(cps: seq<bv32>)
    requires forall i :: 0 <= i < |cps| ==> cps[i] != 0
    ensures |NonZero16(cps)| == |cps|
    decreases |cps|
  {
    if cps != [] {
      NonZeroAllKept(cps[1..]);
    }
  }

  /**
   * The loop with the bound it evidently needs: it also stops once
   * `text[]` is full, so it never writes past the buffer, and it stores the
   * same code points as the loop as written up to that point.
   */
  method DecodeTextIntended(str: seq<Byte>, count: nat, text: seq<bv16>) returns (text': seq<bv16>, i: nat)
    requires |text| == TextCapacity
    ensures |text'| == TextCapacity && i <= TextCapacity
    ensures var all := Kept(str, 0, count % 0x1_0000_0000);
      text'[..i] == all[..if |all| <= TextCapacity then |all| else TextCapacity]
    ensures text'[i..] == text[i..]
  {
    var cursor: nat := 0;
    var n: nat := count % 0x1_0000_0000;
    ghost var all := Kept(str, 0, count % 0x1_0000_0000);
    text', i := text, 0;
    while i < TextCapacity
      invariant cursor <= |str| && i <= TextCapacity && |text'| == TextCapacity
      invariant text'[..i] + Kept(str, cursor, n) == all
      invariant text'[i..] == text[i..]
      decreases |str| - cursor
    {
      ghost var pending := Kept(str, cursor, n);
      var r := ReadChar(str, cursor, n);
      if r.End? || n == 0 {
        break;
      }
      ghost var tail := Kept(str, r.cursor, n - 1);
      assert pending == Keep(r) + tail;
      cursor := r.cursor;
      if r.valid && r.codePoint != 0 {
        var v := Truncate16(r.codePoint);
        assert pending == [v] + tail;
        Store16(text', i, v, tail, all, text);
        text' := text'[i := v];
        i := i + 1;
      } else {
        assert pending == tail;
      }
      n := n - 1;
    }
    assert all[..i] == text'[..i];
  }

  /** What `gfb_text` does with its arguments. */
  datatype TextCall =
    | Refused(rc: ReturnCode)          // returned before calling the table's `text` routine
    | Render(codes: seq<bv16>)         // `op->text` receives these code points; its effect is not modelled

  /**
   * The arguments pass every check of `gfb_text` before the string is read:
   * only then does its NUL terminator or its length matter.
   */
  predicate Reaches(h: Option<Surface>, fontid: int, loaded: seq<bool>, ptsize: bv8,
                    buf: Option<seq<Byte>>, count: nat, sizeFails: bool)
    requires |loaded| == MaxFonts
  {
    && h.Some? && 0 <= fontid < MaxFonts && loaded[fontid] && ptsize >= 1
    && buf.Some? && count > 0 && !sizeFails
  }

  /**
   * `gfb_text`: refuses a NULL surface, a font id past the store or naming
   * an empty slot, point size 0, a NULL string and a zero count; a failure
   * of the font engine to set the size is `GFB_ERROR`; otherwise the
   * string up to its NUL is decoded and handed to the table. The font
   * store and the engine's answer are parameters.
   */
  method GfbText(h: Option<Surface>, fontid: int, loaded: seq<bool>, ptsize: bv8,
                 buf: Option<seq<Byte>>, count: nat, sizeFails: bool, text: seq<bv16>)
    returns (call: TextCall, text': seq<bv16>)
    requires |loaded| == MaxFonts && |text| == TextCapacity
    requires h.Some? && fontid < MaxFonts ==> 0 <= fontid
    requires Reaches(h, fontid, loaded, ptsize, buf, count, sizeFails) ==> 0 in buf.value
    requires Reaches(h, fontid, loaded, ptsize, buf, count, sizeFails) ==>
      |Kept(buf.value[..StrLen(buf.value)], 0, count % 0x1_0000_0000)| <= TextCapacity
    ensures h.None? || fontid >= MaxFonts || !loaded[fontid] || ptsize < 1 || buf.None? || count == 0 ==>
      call == Refused(EArgument)
    ensures h.Some? && fontid < MaxFonts && loaded[fontid] && ptsize >= 1 && buf.Some? && count > 0 && sizeFails ==>
      call == Refused(Error)
    ensures h.Some? && fontid < MaxFonts && loaded[fontid] && ptsize >= 1 && buf.Some? && count > 0 && !sizeFails ==>
      call == Render(Kept(buf.value[..StrLen(buf.value)], 0, count % 0x1_0000_0000))
    ensures call.Render? ==>
      && Reaches(h, fontid, loaded, ptsize, buf, count, sizeFails)
      && call.codes == Kept(buf.value[..StrLen(buf.value)], 0, count % 0x1_0000_0000)
  {
    text' := text;
    if h.None? || fontid >= MaxFonts || !loaded[fontid] || ptsize < 1 || buf.None? || count == 0 {
      return Refused(EArgument), text';
    }
    if sizeFails {
      return Refused(Error), text';
    }
    var str := buf.value[..StrLen(buf.value)];
    var i;
    text', i := DecodeText(str, count, text);
    call := Render(text'[..i]);
  }

  /**
   * A count that is a multiple of 2^32 passes the `count == 0` test but
   * becomes 0 in `unsigned int n`: nothing is decoded.
   */
  lemma CountWraps(str: seq<Byte>)
    ensures Kept(str, 0, 0x1_0000_0000 % 0x1_0000_0000) == []
  {
  }
}
