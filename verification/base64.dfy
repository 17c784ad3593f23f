/**
  The standard base64 encoding of section 4 of RFC 4648 (alphabet of Table 1,
  `=` padding), with the acceptance rules of a lenient padded decoder:
  carriage returns and line feeds are skipped, padding is mandatory, nothing
  may follow the padding, and the unused low bits of the last character before
  the padding are ignored rather than required to be zero.
*/
module Base64 {
  import opened Wrappers

  /** One octet of a byte string. */
  type byte = x: int | 0 <= x < 256

  /** A 6-bit group: the value of one base64 character. */
  type sextet = x: int | 0 <= x < 64

  /** The padding character `=`. */
  const Pad: byte := 61
  /** Line feed, skipped by the decoder. */
  const LF: byte := 10
  /** Carriage return, skipped by the decoder. */
  const CR: byte := 13

  /** Is `c` one of the 64 characters of the alphabet (letters, digits, `+`, `/`)? */
  predicate IsAlphabet(c: byte) {
    65 <= c <= 90 || 97 <= c <= 122 || 48 <= c <= 57 || c == 43 || c == 47
  }

  /** The character that encodes the value `v` (Table 1 of RFC 4648). */
  function CharOf(v: sextet): (c: byte)
    ensures IsAlphabet(c)
    ensures c != Pad && c != LF && c != CR
  {
    if v < 26 then 65 + v
    else if v < 52 then 97 + (v - 26)
    else if v < 62 then 48 + (v - 52)
    else if v == 62 then 43
    else 47
  }

  /** The value an alphabet character encodes: the inverse of CharOf. */
  function ValueOf(c: byte): (v: sextet)
    requires IsAlphabet(c)
    ensures CharOf(v) == c
  {
    if 65 <= c <= 90 then c - 65
    else if 97 <= c <= 122 then c - 97 + 26
    else if 48 <= c <= 57 then c - 48 + 52
    else if c == 43 then 62
    else 63
  }

  /** Distinct values are written as distinct characters, and ValueOf reads them back. */
  lemma ValueOfCharOf(v: sextet)
    ensures ValueOf(CharOf(v)) == v
  {
  }

  // ---------------------------------------------------------------------
  // Encoding
  // ---------------------------------------------------------------------

  /** Three octets become four characters. */
  function EncodeBlock(x: byte, y: byte, z: byte): seq<byte> {
    [CharOf(x / 4), CharOf((x % 4) * 16 + y / 16), CharOf((y % 16) * 4 + z / 64), CharOf(z % 64)]
  }

  /** A final group of two octets: three characters and one pad. */
  function EncodeTail2(x: byte, y: byte): seq<byte> {
    [CharOf(x / 4), CharOf((x % 4) * 16 + y / 16), CharOf((y % 16) * 4), Pad]
  }

  /** A final group of one octet: two characters and two pads. */
  function EncodeTail1(x: byte): seq<byte> {
    [CharOf(x / 4), CharOf((x % 4) * 16), Pad, Pad]
  }

  /** Characters the encoder emits: alphabet characters or padding. */
  predicate IsEncodingChar(c: byte) {
    IsAlphabet(c) || c == Pad
  }

  /** Standard padded base64 encoding of `b`. */
  function Encode(b: seq<byte>): (s: seq<byte>)
    ensures |s| == (|b| + 2) / 3 * 4
    ensures forall i :: 0 <= i < |s| ==> IsEncodingChar(s[i])
    decreases |b|
  {
    if |b| == 0 then []
    else if |b| == 1 then EncodeTail1(b[0])
    else if |b| == 2 then EncodeTail2(b[0], b[1])
    else EncodeBlock(b[0], b[1], b[2]) + Encode(b[3..])
  }

  // ---------------------------------------------------------------------
  // Decoding
  // ---------------------------------------------------------------------

  /** `s` with every carriage return and line feed removed. */
  function WithoutNewlines(s: seq<byte>): (t: seq<byte>)
    ensures |t| <= |s|
    ensures forall i :: 0 <= i < |t| ==> t[i] != LF && t[i] != CR
    ensures (forall i :: 0 <= i < |s| ==> s[i] != LF && s[i] != CR) ==> t == s
  {
    if |s| == 0 then []
    else if s[0] == LF || s[0] == CR then WithoutNewlines(s[1..])
    else [s[0]] + WithoutNewlines(s[1..])
  }

  /** Four sextets joined into the 24-bit group they spell, as three octets. */
  function Join(va: sextet, vb: sextet, vc: sextet, vd: sextet): (r: seq<byte>)
    ensures |r| == 3
  {
    [va * 4 + vb / 16, (vb % 16) * 16 + vc / 4, (vc % 4) * 64 + vd]
  }

  /** Four alphabet characters become three octets. */
  function DecodeBlock(a: byte, b: byte, c: byte, d: byte): seq<byte>
    requires IsAlphabet(a) && IsAlphabet(b) && IsAlphabet(c) && IsAlphabet(d)
  {
    Join(ValueOf(a), ValueOf(b), ValueOf(c), ValueOf(d))
  }

  /**
    The last quantum: four characters, or three and one pad, or two and two
    pads. The bits of the last character that fall past the final octet are
    dropped, whatever they are.
  */
  function DecodeFinal(a: byte, b: byte, c: byte, d: byte): (r: Option<seq<byte>>)
    ensures r.Some? ==> 1 <= |r.value| <= 3
    ensures r.Some? ==> (|r.value| == 3 <==> d != Pad)
    ensures r.Some? ==> (|r.value| == 1 <==> c == Pad)
  {
    if !IsAlphabet(a) || !IsAlphabet(b) then None
    else if IsAlphabet(c) && IsAlphabet(d) then Some(DecodeBlock(a, b, c, d))
    else if IsAlphabet(c) && d == Pad then Some(Join(ValueOf(a), ValueOf(b), ValueOf(c), 0)[..2])
    else if c == Pad && d == Pad then Some(Join(ValueOf(a), ValueOf(b), 0, 0)[..1])
    else None
  }

  /**
    Decodes an encoded string that holds no line breaks, quantum by
    quantum. Only the last quantum may carry padding.
  */
  function DecodeQuanta(s: seq<byte>): (r: Option<seq<byte>>)
    ensures r.Some? ==> |s| % 4 == 0
    ensures r.Some? ==> |s| / 4 * 3 - 2 <= |r.value| <= |s| / 4 * 3
    decreases |s|
  {
    if |s| == 0 then Some([])
    else if |s| < 4 then None
    else if |s| == 4 then DecodeFinal(s[0], s[1], s[2], s[3])
    else if IsAlphabet(s[0]) && IsAlphabet(s[1]) && IsAlphabet(s[2]) && IsAlphabet(s[3]) then
      match DecodeQuanta(s[4..])
      case None => None
      case Some(rest) => Some(DecodeBlock(s[0], s[1], s[2], s[3]) + rest)
    else None
  }

  /**
    Decodes `s`, or yields None when it is not well-formed padded base64
    once line breaks are skipped. A result never outgrows the buffer the
    decoder allots: three octets for every four input characters.
  */
  function Decode(s: seq<byte>): (r: Option<seq<byte>>)
    ensures r.Some? ==> |r.value| <= |s| / 4 * 3
    ensures (forall i :: 0 <= i < |s| ==> s[i] != LF && s[i] != CR) ==> r == DecodeQuanta(s)
  {
    DecodeQuanta(WithoutNewlines(s))
  }

  /** Apart from line breaks, a decodable string consists of whole quanta. */
  lemma DecodeNeedsWholeQuanta(s: seq<byte>)
    requires forall i :: 0 <= i < |s| ==> s[i] != LF && s[i] != CR
    requires |s| % 4 != 0
    ensures Decode(s) == None
  {
  }

  /** Stripping line breaks works piecewise over a concatenation. */
  lemma {:induction false} WithoutNewlinesAppend(x: seq<byte>, y: seq<byte>)
    ensures WithoutNewlines(x + y) == WithoutNewlines(x) + WithoutNewlines(y)
    decreases |x|
  {
    if |x| == 0 {
      assert x + y == y;
    } else {
      assert (x + y)[0] == x[0];
      assert (x + y)[1..] == x[1..] + y;
      WithoutNewlinesAppend(x[1..], y);
    }
  }

  /**
    A line break anywhere in the input is skipped: removing it does not
    change what the string decodes to, nor whether it decodes.
  */
  lemma DecodeSkipsLineBreak(a: seq<byte>, c: byte, b: seq<byte>)
    requires c == LF || c == CR
    ensures Decode(a + [c] + b) == Decode(a + b)
  {
    var wa, wb := WithoutNewlines(a), WithoutNewlines(b);
    WithoutNewlinesAppend(a, [c]);
    LineBreakVanishes(c);
    assert wa + [] == wa;
    WithoutNewlinesAppend(a + [c], b);
    WithoutNewlinesAppend(a, b);
    assert WithoutNewlines(a + [c] + b) == wa + wb;
  }

  /** A lone line break strips to nothing. */
  lemma LineBreakVanishes(c: byte)
    requires c == LF || c == CR
    ensures WithoutNewlines([c]) == []
  {
    assert [c][1..] == [];
  }

  // ---------------------------------------------------------------------
  // Round trips
  // ---------------------------------------------------------------------

  /** Splitting three octets into four sextets and joining them again is the identity. */
  lemma JoinSplit(x: byte, y: byte, z: byte)
    ensures Join(x / 4, (x % 4) * 16 + y / 16, (y % 16) * 4 + z / 64, z % 64) == [x, y, z]
  {
    assert ((x % 4) * 16 + y / 16) / 16 == x % 4;
    assert ((x % 4) * 16 + y / 16) % 16 == y / 16;
    assert ((y % 16) * 4 + z / 64) / 4 == y % 16;
    assert ((y % 16) * 4 + z / 64) % 4 == z / 64;
  }

  /** A full quantum decodes to the three octets it encodes. */
  lemma DecodeEncodeBlock(x: byte, y: byte, z: byte)
    ensures var e := EncodeBlock(x, y, z);
      DecodeBlock(e[0], e[1], e[2], e[3]) == [x, y, z]
  {
    JoinSplit(x, y, z);
    ValueOfCharOf(x / 4);
    ValueOfCharOf((x % 4) * 16 + y / 16);
    ValueOfCharOf((y % 16) * 4 + z / 64);
    ValueOfCharOf(z % 64);
  }

  /** A final quantum with one pad decodes to the two octets it encodes. */
  lemma DecodeEncodeTail2(x: byte, y: byte)
    ensures var e := EncodeTail2(x, y);
      DecodeFinal(e[0], e[1], e[2], e[3]) == Some([x, y])
  {
    var va, vb, vc := x / 4, (x % 4) * 16 + y / 16, (y % 16) * 4;
    JoinSplit(x, y, 0);
    assert Join(va, vb, vc, 0) == [x, y, 0];
    ValueOfCharOf(va);
    ValueOfCharOf(vb);
    ValueOfCharOf(vc);
    assert [x, y, 0][..2] == [x, y];
  }

  /** A final quantum with two pads decodes to the octet it encodes. */
  lemma DecodeEncodeTail1(x: byte)
    ensures var e := EncodeTail1(x);
      DecodeFinal(e[0], e[1], e[2], e[3]) == Some([x])
  {
    var va, vb := x / 4, (x % 4) * 16;
    JoinSplit(x, 0, 0);
    assert Join(va, vb, 0, 0) == [x, 0, 0];
    ValueOfCharOf(va);
    ValueOfCharOf(vb);
    assert [x, 0, 0][..1] == [x];
  }

  /** One full leading quantum followed by a well-formed remainder decodes block by block. */
  lemma DecodeQuantaCons(q: seq<byte>, rest: seq<byte>, tail: seq<byte>)
    requires |q| == 4 && IsAlphabet(q[0]) && IsAlphabet(q[1]) && IsAlphabet(q[2]) && IsAlphabet(q[3])
    requires DecodeQuanta(rest) == Some(tail)
    ensures DecodeQuanta(q + rest) == Some(DecodeBlock(q[0], q[1], q[2], q[3]) + tail)
  {
    var s := q + rest;
    assert s[..4] == q;
    if |rest| == 0 {
      assert s == q && tail == [];
      assert DecodeBlock(q[0], q[1], q[2], q[3]) + tail == DecodeBlock(q[0], q[1], q[2], q[3]);
    } else {
      assert s[4..] == rest;
    }
  }

  /** Encoding at least three octets writes the first block, then encodes the rest. */
  lemma EncodeUnfold(b: seq<byte>)
    requires |b| >= 3
    ensures Encode(b) == EncodeBlock(b[0], b[1], b[2]) + Encode(b[3..])
  {
  }

  /** A byte string of at least three octets is its first three followed by the rest. */
  lemma FirstBlock(b: seq<byte>)
    requires |b| >= 3
    ensures b == [b[0], b[1], b[2]] + b[3..]
  {
  }

  /** The quantum decoder inverts the encoder on a leading block, given it for the rest. */
  lemma DecodeQuantaEncodeStep(b: seq<byte>)
    requires |b| >= 3 && DecodeQuanta(Encode(b[3..])) == Some(b[3..])
    ensures DecodeQuanta(Encode(b)) == Some(b)
  {
    var block, tail := [b[0], b[1], b[2]], b[3..];
    FirstBlock(b);
    var head, rest := EncodeBlock(b[0], b[1], b[2]), Encode(tail);
    EncodeUnfold(b);
    assert Encode(b) == head + rest;
    DecodeEncodeBlock(b[0], b[1], b[2]);
    DecodeQuantaCons(head, rest, tail);
    assert DecodeQuanta(head + rest) == Some(block + tail);
  }

  /** The quantum decoder inverts the encoder. */
  lemma {:induction false} DecodeQuantaEncode(b: seq<byte>)
    ensures DecodeQuanta(Encode(b)) == Some(b)
    decreases |b|
  {
    if |b| == 0 {
    } else if |b| == 1 {
      DecodeEncodeTail1(b[0]);
      assert b == [b[0]];
    } else if |b| == 2 {
      DecodeEncodeTail2(b[0], b[1]);
      assert b == [b[0], b[1]];
    } else {
      DecodeQuantaEncode(b[3..]);
      DecodeQuantaEncodeStep(b);
    }
  }

  /**
    Round trip of section 4 of RFC 4648: decoding the encoding of any byte
    string gives back that byte string, never a failure.
  */
  lemma DecodeEncode(b: seq<byte>)
    ensures Decode(Encode(b)) == Some(b)
  {
    var e := Encode(b);
    assert forall i :: 0 <= i < |e| ==> e[i] != LF && e[i] != CR by {
      forall i | 0 <= i < |e| ensures e[i] != LF && e[i] != CR {
        assert IsEncodingChar(e[i]);
      }
    }
    DecodeQuantaEncode(b);
  }

  /**
    A quantum whose padding hides no set bits: the unused low bits of the
    last character before the padding are zero, as the encoder writes them.
  */
  predicate IsCanonicalQuantum(a: byte, b: byte, c: byte, d: byte) {
    && (IsAlphabet(b) && c == Pad && d == Pad ==> ValueOf(b) % 16 == 0)
    && (IsAlphabet(c) && d == Pad ==> ValueOf(c) % 4 == 0)
  }

  /**
    The last quantum of `s` is canonical. The decoder ignores the hidden
    bits, so only canonical strings are images of the encoder.
  */
  predicate IsCanonical(s: seq<byte>) {
    |s| >= 4 ==> IsCanonicalQuantum(s[|s| - 4], s[|s| - 3], s[|s| - 2], s[|s| - 1])
  }

  /** Joining four sextets into three octets and splitting them again is the identity. */
  lemma SplitJoin(va: sextet, vb: sextet, vc: sextet, vd: sextet)
    ensures var x := Join(va, vb, vc, vd); EncodeBlock(x[0], x[1], x[2]) == [CharOf(va), CharOf(vb), CharOf(vc), CharOf(vd)]
  {
    var x, y, z := va * 4 + vb / 16, (vb % 16) * 16 + vc / 4, (vc % 4) * 64 + vd;
    assert Join(va, vb, vc, vd) == [x, y, z];
    assert x / 4 == va && x % 4 == vb / 16;
    assert y / 16 == vb % 16 && y % 16 == vc / 4;
    assert z / 64 == vc % 4 && z % 64 == vd;
    assert (x % 4) * 16 + y / 16 == vb;
    assert (y % 16) * 4 + z / 64 == vc;
  }

  /** A full quantum is the encoding of the block it decodes to. */
  lemma EncodeDecodeBlock(a: byte, b: byte, c: byte, d: byte)
    requires IsAlphabet(a) && IsAlphabet(b) && IsAlphabet(c) && IsAlphabet(d)
    ensures var x := DecodeBlock(a, b, c, d); EncodeBlock(x[0], x[1], x[2]) == [a, b, c, d]
  {
    SplitJoin(ValueOf(a), ValueOf(b), ValueOf(c), ValueOf(d));
  }

  /** Three sextets whose hidden bits are zero are the encoding of the two octets they join to. */
  lemma SplitJoin2(va: sextet, vb: sextet, vc: sextet)
    requires vc % 4 == 0
    ensures var x := Join(va, vb, vc, 0); EncodeTail2(x[0], x[1]) == [CharOf(va), CharOf(vb), CharOf(vc), Pad]
  {
    var x, y := va * 4 + vb / 16, (vb % 16) * 16 + vc / 4;
    assert x / 4 == va && x % 4 == vb / 16;
    assert y / 16 == vb % 16 && y % 16 == vc / 4;
    assert (x % 4) * 16 + y / 16 == vb;
    assert (y % 16) * 4 == vc;
    assert Join(va, vb, vc, 0)[..2] == [x, y];
  }

  /** Two sextets whose hidden bits are zero are the encoding of the octet they join to. */
  lemma SplitJoin1(va: sextet, vb: sextet)
    requires vb % 16 == 0
    ensures var x := Join(va, vb, 0, 0); EncodeTail1(x[0]) == [CharOf(va), CharOf(vb), Pad, Pad]
  {
    var x := va * 4 + vb / 16;
    assert x / 4 == va && x % 4 == vb / 16;
  }

  /** A canonical final quantum is the encoding of what it decodes to. */
  lemma EncodeDecodeFinal(a: byte, b: byte, c: byte, d: byte)
    requires DecodeFinal(a, b, c, d).Some?
    requires IsCanonicalQuantum(a, b, c, d)
    ensures Encode(DecodeFinal(a, b, c, d).value) == [a, b, c, d]
  {
    var va, vb := ValueOf(a), ValueOf(b);
    if IsAlphabet(c) && IsAlphabet(d) {
      EncodeDecodeBlock(a, b, c, d);
      var x := DecodeBlock(a, b, c, d);
      assert Encode(x) == EncodeBlock(x[0], x[1], x[2]) + Encode([]) by {
        assert x[3..] == [];
      }
    } else if IsAlphabet(c) && d == Pad {
      var x := Join(va, vb, ValueOf(c), 0);
      SplitJoin2(va, vb, ValueOf(c));
      assert DecodeFinal(a, b, c, d).value == [x[0], x[1]];
    } else {
      var x := Join(va, vb, 0, 0);
      SplitJoin1(va, vb);
      assert DecodeFinal(a, b, c, d).value == [x[0]];
    }
  }

  /** Encoding a block followed by more octets puts the block's four characters first. */
  lemma EncodeCons(block: seq<byte>, tail: seq<byte>)
    requires |block| == 3
    ensures Encode(block + tail) == EncodeBlock(block[0], block[1], block[2]) + Encode(tail)
  {
    var b := block + tail;
    assert b[3..] == tail;
  }

  /** A string longer than one quantum decodes only if its first quantum is full and the rest decodes. */
  lemma DecodeQuantaUncons(s: seq<byte>)
    requires |s| > 4 && DecodeQuanta(s).Some?
    ensures IsAlphabet(s[0]) && IsAlphabet(s[1]) && IsAlphabet(s[2]) && IsAlphabet(s[3])
    ensures DecodeQuanta(s[4..]).Some?
    ensures DecodeQuanta(s).value == DecodeBlock(s[0], s[1], s[2], s[3]) + DecodeQuanta(s[4..]).value
  {
  }

  /** Dropping a leading quantum keeps the last quantum, hence canonicity. */
  lemma CanonicalSuffix(s: seq<byte>)
    requires |s| >= 8 && IsCanonical(s)
    ensures IsCanonical(s[4..])
  {
    var rest := s[4..];
    assert rest[|rest| - 1] == s[|s| - 1] && rest[|rest| - 2] == s[|s| - 2];
    assert rest[|rest| - 3] == s[|s| - 3] && rest[|rest| - 4] == s[|s| - 4];
  }

  /** The converse round trip for a string of one quantum. */
  lemma EncodeDecodeSingle(s: seq<byte>)
    requires |s| == 4 && DecodeQuanta(s).Some? && IsCanonical(s)
    ensures Encode(DecodeQuanta(s).value) == s
  {
    assert DecodeQuanta(s) == DecodeFinal(s[0], s[1], s[2], s[3]);
    EncodeDecodeFinal(s[0], s[1], s[2], s[3]);
    assert s == [s[0], s[1], s[2], s[3]];
  }

  /** Encoding a block and a tail that spell the two halves of `s` spells `s`. */
  lemma EncodeConsSpells(s: seq<byte>, block: seq<byte>, tail: seq<byte>)
    requires |s| >= 4 && |block| == 3
    requires EncodeBlock(block[0], block[1], block[2]) == s[..4]
    requires Encode(tail) == s[4..]
    ensures Encode(block + tail) == s
  {
    EncodeCons(block, tail);
    assert s == s[..4] + s[4..];
  }

  /** The first four characters of a string, as a display. */
  lemma FirstQuantum(s: seq<byte>)
    requires |s| >= 4
    ensures s[..4] == [s[0], s[1], s[2], s[3]]
  {
  }

  /** The converse round trip for a leading full quantum, given it for the rest. */
  lemma EncodeDecodeStep(s: seq<byte>)
    requires |s| > 4 && DecodeQuanta(s).Some?
    requires DecodeQuanta(s[4..]).Some? && Encode(DecodeQuanta(s[4..]).value) == s[4..]
    ensures Encode(DecodeQuanta(s).value) == s
  {
    FirstQuantum(s);
    DecodeQuantaUncons(s);
    EncodeDecodeBlock(s[0], s[1], s[2], s[3]);
    EncodeConsSpells(s, DecodeBlock(s[0], s[1], s[2], s[3]), DecodeQuanta(s[4..]).value);
  }

  /**
    Converse round trip: a canonical, line-break-free string that decodes is
    exactly the encoding of its decoding.
  */
  lemma {:induction false} EncodeDecodeQuanta(s: seq<byte>)
    requires DecodeQuanta(s).Some?
    requires IsCanonical(s)
    ensures Encode(DecodeQuanta(s).value) == s
    decreases |s|
  {
    if |s| == 0 {
    } else if |s| == 4 {
      EncodeDecodeSingle(s);
    } else {
      DecodeQuantaUncons(s);
      CanonicalSuffix(s);
      EncodeDecodeQuanta(s[4..]);
      EncodeDecodeStep(s);
    }
  }

  /** The one- and two-octet tails leave their hidden bits zero. */
  lemma TailsAreCanonical(x: byte, y: byte)
    ensures var e := EncodeTail1(x); IsCanonicalQuantum(e[0], e[1], e[2], e[3])
    ensures var e := EncodeTail2(x, y); IsCanonicalQuantum(e[0], e[1], e[2], e[3])
  {
    ValueOfCharOf((x % 4) * 16);
    ValueOfCharOf((y % 16) * 4);
  }

  /** The encoder writes only canonical strings. */
  lemma {:induction false} EncodeIsCanonical(b: seq<byte>)
    ensures IsCanonical(Encode(b))
    decreases |b|
  {
    if |b| == 0 {
    } else if |b| == 1 {
      TailsAreCanonical(b[0], 0);
    } else if |b| == 2 {
      TailsAreCanonical(b[0], b[1]);
    } else if |b| == 3 {
      var e := EncodeBlock(b[0], b[1], b[2]);
      assert Encode(b) == e + [];
      assert IsAlphabet(e[2]) && IsAlphabet(e[3]);
    } else {
      var head, rest := EncodeBlock(b[0], b[1], b[2]), Encode(b[3..]);
      EncodeIsCanonical(b[3..]);
      var e := head + rest;
      assert Encode(b) == e;
      assert e[|e| - 1] == rest[|rest| - 1] && e[|e| - 2] == rest[|rest| - 2];
      assert e[|e| - 3] == rest[|rest| - 3] && e[|e| - 4] == rest[|rest| - 4];
    }
  }

  /**
    The encoder's image: a string free of line breaks is the encoding of some
    byte string exactly when it decodes and is canonical.
  */
  lemma EncodingImage(s: seq<byte>)
    requires forall i :: 0 <= i < |s| ==> s[i] != LF && s[i] != CR
    ensures (exists b :: Encode(b) == s) <==> Decode(s).Some? && IsCanonical(s)
  {
    assert WithoutNewlines(s) == s;
    if exists b :: Encode(b) == s {
      var b :| Encode(b) == s;
      DecodeEncode(b);
      EncodeIsCanonical(b);
    }
    if Decode(s).Some? && IsCanonical(s) {
      EncodeDecodeQuanta(s);
    }
  }
}
