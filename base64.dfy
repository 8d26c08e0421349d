/**
 * Base64 with the standard alphabet and `=` padding of section 4 of RFC 4648,
 * the encoding the `base64` crate's standard engine (and its older `encode`)
 * produces. The decoder is not used by the system; it is the inverse against
 * which the encoder is proved.
 */
module Base64 {
  import opened Wrappers

  type byte = b: int | 0 <= b < 256

  /** A six-bit value, the unit one base64 character carries. */
  type sextet = v: int | 0 <= v < 64

  /** Character for a six-bit value: `A`-`Z`, `a`-`z`, `0`-`9`, `+`, `/`. */
  function CharOf(v: sextet): (c: char)
    ensures IsAlphabetChar(c)
  {
    if v < 26 then ('A' as int + v) as char
    else if v < 52 then ('a' as int + v - 26) as char
    else if v < 62 then ('0' as int + v - 52) as char
    else if v == 62 then '+'
    else '/'
  }

  predicate IsAlphabetChar(c: char) {
    ('A' <= c <= 'Z') || ('a' <= c <= 'z') || ('0' <= c <= '9') || c == '+' || c == '/'
  }

  /** Six-bit value of an alphabet character; `None` for any other character. */
  function IndexOf(c: char): (r: Option<sextet>)
    ensures r.Some? <==> IsAlphabetChar(c)
  {
    if 'A' <= c <= 'Z' then Some(c as int - 'A' as int)
    else if 'a' <= c <= 'z' then Some(c as int - 'a' as int + 26)
    else if '0' <= c <= '9' then Some(c as int - '0' as int + 52)
    else if c == '+' then Some(62)
    else if c == '/' then Some(63)
    else None
  }

  lemma IndexOfCharOf(v: sextet)
    ensures IndexOf(CharOf(v)) == Some(v)
  {
  }

  /** The four characters for three bytes: their 24 bits, six at a time. */
  function EncodeTriple(b0: byte, b1: byte, b2: byte): seq<char> {
    [CharOf(b0 / 4), CharOf(b0 % 4 * 16 + b1 / 16), CharOf(b1 % 16 * 4 + b2 / 64), CharOf(b2 % 64)]
  }

  /** The last group for one left-over byte. */
  function EncodeOne(b0: byte): seq<char> {
    [CharOf(b0 / 4), CharOf(b0 % 4 * 16), '=', '=']
  }

  /** The last group for two left-over bytes. */
  function EncodeTwo(b0: byte, b1: byte): seq<char> {
    [CharOf(b0 / 4), CharOf(b0 % 4 * 16 + b1 / 16), CharOf(b1 % 16 * 4), '=']
  }

  /**
   * Encoded form of `bytes`: one group of four characters per three bytes,
   * a final group for one or two left-over bytes padded with `=`.
   */
  function Encode(bytes: seq<byte>): (s: string)
    ensures |s| == (|bytes| + 2) / 3 * 4
    ensures forall i :: 0 <= i < |s| ==> IsAlphabetChar(s[i]) || s[i] == '='
    decreases |bytes|
  {
    if |bytes| == 0 then ""
    else if |bytes| == 1 then EncodeOne(bytes[0])
    else if |bytes| == 2 then EncodeTwo(bytes[0], bytes[1])
    else EncodeTriple(bytes[0], bytes[1], bytes[2]) + Encode(bytes[3..])
  }

  /** The bytes whose bits the sextets carry, high bits first. */
  function JoinFirst(c0: sextet, c1: sextet): byte { c0 * 4 + c1 / 16 }
  function JoinSecond(c1: sextet, c2: sextet): byte { c1 % 16 * 16 + c2 / 4 }
  function JoinThird(c2: sextet, c3: sextet): byte { c2 % 4 * 64 + c3 }

  /** Three bytes from four characters, none of them padding. */
  function DecodeQuad(q: seq<char>): (r: Option<seq<byte>>)
    requires |q| == 4
  {
    var c0 :- IndexOf(q[0]);
    var c1 :- IndexOf(q[1]);
    var c2 :- IndexOf(q[2]);
    var c3 :- IndexOf(q[3]);
    Some([JoinFirst(c0, c1), JoinSecond(c1, c2), JoinThird(c2, c3)])
  }

  /**
   * The last group, which may end in one or two `=`. The bits of the last
   * character that no byte uses must be zero, as the encoder leaves them.
   */
  function DecodeLastQuad(q: seq<char>): (r: Option<seq<byte>>)
    requires |q| == 4
  {
    if q[2] == '=' && q[3] == '=' then
      var c0 :- IndexOf(q[0]);
      var c1 :- IndexOf(q[1]);
      if c1 % 16 != 0 then None
      else Some([JoinFirst(c0, c1)])
    else if q[3] == '=' then
      var c0 :- IndexOf(q[0]);
      var c1 :- IndexOf(q[1]);
      var c2 :- IndexOf(q[2]);
      if c2 % 4 != 0 then None
      else Some([JoinFirst(c0, c1), JoinSecond(c1, c2)])
    else
      DecodeQuad(q)
  }

  /**
   * Bytes of a base64 text; `None` when its length or a character is wrong,
   * or when the unused bits before the padding are not zero.
   */
  function Decode(s: string): (r: Option<seq<byte>>)
    decreases |s|
  {
    if |s| == 0 then Some([])
    else if |s| < 4 then None
    else if |s| == 4 then DecodeLastQuad(s)
    else
      var head :- DecodeQuad(s[..4]);
      var tail :- Decode(s[4..]);
      Some(head + tail)
  }

  /** The sextets of three bytes join back into the bytes. */
  lemma JoinSplit(b0: byte, b1: byte, b2: byte)
    ensures JoinFirst(b0 / 4, b0 % 4 * 16 + b1 / 16) == b0
    ensures JoinSecond(b0 % 4 * 16 + b1 / 16, b1 % 16 * 4 + b2 / 64) == b1
    ensures JoinThird(b1 % 16 * 4 + b2 / 64, b2 % 64) == b2
  {
  }

  lemma DecodeSextets(c0: sextet, c1: sextet, c2: sextet, c3: sextet)
    ensures DecodeQuad([CharOf(c0), CharOf(c1), CharOf(c2), CharOf(c3)]) ==
      Some([JoinFirst(c0, c1), JoinSecond(c1, c2), JoinThird(c2, c3)])
  {
    IndexOfCharOf(c0);
    IndexOfCharOf(c1);
    IndexOfCharOf(c2);
    IndexOfCharOf(c3);
  }

  lemma DecodeEncodeTriple(b0: byte, b1: byte, b2: byte)
    ensures DecodeQuad(EncodeTriple(b0, b1, b2)) == Some([b0, b1, b2])
  {
    JoinSplit(b0, b1, b2);
    DecodeSextets(b0 / 4, b0 % 4 * 16 + b1 / 16, b1 % 16 * 4 + b2 / 64, b2 % 64);
  }

  lemma DecodeEncodeOne(b0: byte)
    ensures DecodeLastQuad(EncodeOne(b0)) == Some([b0])
  {
    IndexOfCharOf(b0 / 4);
    IndexOfCharOf(b0 % 4 * 16);
  }

  lemma DecodeEncodeTwo(b0: byte, b1: byte)
    ensures DecodeLastQuad(EncodeTwo(b0, b1)) == Some([b0, b1])
  {
    IndexOfCharOf(b0 / 4);
    IndexOfCharOf(b0 % 4 * 16 + b1 / 16);
    IndexOfCharOf(b1 % 16 * 4);
  }

  /** A full group followed by a non-empty rest decodes group by group. */
  lemma {:induction false} DecodeCons(head: seq<char>, tail: seq<char>, h: seq<byte>, t: seq<byte>)
    requires |head| == 4 && |tail| >= 4
    requires DecodeQuad(head) == Some(h) && Decode(tail) == Some(t)
    ensures Decode(head + tail) == Some(h + t)
  {
    assert (head + tail)[..4] == head;
    assert (head + tail)[4..] == tail;
  }

  lemma {:induction false} FirstThree<T>(s: seq<T>)
    requires |s| >= 3
    ensures s == [s[0], s[1], s[2]] + s[3..]
  {
  }

  lemma {:induction false} ExactlyThree<T>(s: seq<T>)
    requires |s| == 3
    ensures s == [s[0], s[1], s[2]]
  {
  }

  /** A last group without padding decodes as a full group. */
  lemma {:induction false} DecodeLastTriple(q: seq<char>, h: seq<byte>)
    requires |q| == 4 && DecodeQuad(q) == Some(h)
    ensures Decode(q) == Some(h)
  {
    assert q[2] != '=' && q[3] != '=';
  }

  /** Decoding the encoding of any byte string gives back the bytes. */
  lemma {:induction false} DecodeEncode(bytes: seq<byte>)
    ensures Decode(Encode(bytes)) == Some(bytes)
    decreases |bytes|
  {
    if |bytes| == 0 {
    } else if |bytes| == 1 {
      DecodeEncodeOne(bytes[0]);
      assert bytes == [bytes[0]];
    } else if |bytes| == 2 {
      DecodeEncodeTwo(bytes[0], bytes[1]);
      assert bytes == [bytes[0], bytes[1]];
    } else {
      var head := EncodeTriple(bytes[0], bytes[1], bytes[2]);
      var tail := Encode(bytes[3..]);
      assert Encode(bytes) == head + tail;
      DecodeEncodeTriple(bytes[0], bytes[1], bytes[2]);
      if |bytes| == 3 {
        assert tail == [] && Encode(bytes) == head;
        DecodeLastTriple(head, [bytes[0], bytes[1], bytes[2]]);
        ExactlyThree(bytes);
      } else {
        DecodeEncode(bytes[3..]);
        DecodeCons(head, tail, [bytes[0], bytes[1], bytes[2]], bytes[3..]);
        FirstThree(bytes);
      }
    }
  }

  /** Reading a character back as its value and writing it again gives the character. */
  lemma CharOfIndexOf(c: char)
    requires IndexOf(c).Some?
    ensures CharOf(IndexOf(c).value) == c
  {
  }

  /** Splitting the bytes four sextets join into gives back the sextets. */
  lemma SplitJoin(c0: sextet, c1: sextet, c2: sextet, c3: sextet)
    ensures JoinFirst(c0, c1) / 4 == c0
    ensures JoinFirst(c0, c1) % 4 * 16 + JoinSecond(c1, c2) / 16 == c1
    ensures JoinSecond(c1, c2) % 16 * 4 + JoinThird(c2, c3) / 64 == c2
    ensures JoinThird(c2, c3) % 64 == c3
  {
  }

  /** A full group that decodes is the encoding of its three bytes. */
  lemma EncodeDecodeQuad(q: seq<char>)
    requires |q| == 4 && DecodeQuad(q).Some?
    ensures var h := DecodeQuad(q).value; |h| == 3 && EncodeTriple(h[0], h[1], h[2]) == q
  {
    var c0, c1, c2, c3 := IndexOf(q[0]).value, IndexOf(q[1]).value, IndexOf(q[2]).value, IndexOf(q[3]).value;
    SplitJoin(c0, c1, c2, c3);
    CharOfIndexOf(q[0]);
    CharOfIndexOf(q[1]);
    CharOfIndexOf(q[2]);
    CharOfIndexOf(q[3]);
  }

  /** A last group that decodes is the encoding of its bytes. */
  lemma EncodeDecodeLastQuad(q: seq<char>)
    requires |q| == 4 && DecodeLastQuad(q).Some?
    ensures Encode(DecodeLastQuad(q).value) == q
  {
    if q[2] == '=' && q[3] == '=' {
      var c0, c1 := IndexOf(q[0]).value, IndexOf(q[1]).value;
      SplitJoin(c0, c1, 0, 0);
      CharOfIndexOf(q[0]);
      CharOfIndexOf(q[1]);
      assert JoinFirst(c0, c1) % 4 * 16 == c1;
    } else if q[3] == '=' {
      var c0, c1, c2 := IndexOf(q[0]).value, IndexOf(q[1]).value, IndexOf(q[2]).value;
      SplitJoin(c0, c1, c2, 0);
      CharOfIndexOf(q[0]);
      CharOfIndexOf(q[1]);
      CharOfIndexOf(q[2]);
      assert JoinSecond(c1, c2) % 16 * 4 == c2;
    } else {
      EncodeDecodeQuad(q);
      var h := DecodeQuad(q).value;
      ExactlyThree(h);
      assert Encode(h) == EncodeTriple(h[0], h[1], h[2]) + Encode(h[3..]);
    }
  }

  /** A non-empty text that decodes gives at least one byte. */
  lemma {:induction false} DecodeNonEmpty(s: string)
    requires |s| > 0 && Decode(s).Some?
    ensures |Decode(s).value| > 0
  {
    if |s| > 4 {
      var h := DecodeQuad(s[..4]).value;
      assert |h| == 3;
    }
  }

  /**
   * Decoding accepts only canonical text: a text that decodes is exactly the
   * encoding of the bytes it decodes to, so no other text stands for them.
   */
  lemma {:induction false} EncodeDecode(s: string)
    requires Decode(s).Some?
    ensures Encode(Decode(s).value) == s
    decreases |s|
  {
    if |s| == 4 {
      EncodeDecodeLastQuad(s);
    } else if |s| > 4 {
      var head, rest := s[..4], s[4..];
      EncodeDecodeQuad(head);
      var h := DecodeQuad(head).value;
      var t := Decode(rest).value;
      EncodeDecode(rest);
      DecodeNonEmpty(rest);
      var b := h + t;
      assert Decode(s).value == b;
      assert b[..3] == h && b[3..] == t;
      assert Encode(b) == EncodeTriple(b[0], b[1], b[2]) + Encode(b[3..]);
      assert s == head + rest;
    }
  }
}
