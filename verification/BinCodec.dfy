/**
 The escape layer of the binary format.  A message body may hold any byte; on the wire
 0xff ends a message, so 0xff and the escape byte 0xfe itself travel as 0xfe followed by
 the byte with bit 6 flipped.
 */
module BinCodec {
  import opened BasicDetail
  import opened Sequences

  /** A std::string passed by reference and edited in place. */
  class ByteString {
    var text: seq<byte>

    constructor (text: seq<byte>)
      ensures this.text == text
    {
      this.text := text;
    }
  }

  predicate IsSpecial(b: byte) {
    b == ESCAPE || b == MESSAGE_END
  }

  function EncodeByte(b: byte): seq<byte> {
    if IsSpecial(b) then [ESCAPE, ProcessOne(b)] else [b]
  }

  function Encode(s: seq<byte>): seq<byte> {
    if s == [] then [] else EncodeByte(s[0]) + Encode(s[1..])
  }

  /** What decoding leaves in the string; `complete` is false when it throws. */
  datatype Decoded = Decoded(text: seq<byte>, complete: bool)

  function Decode(s: seq<byte>): Decoded {
    if s == [] then
      Decoded([], true)
    else if s[0] != ESCAPE then
      var rest := Decode(s[1..]);
      Decoded([s[0]] + rest.text, rest.complete)
    else if |s| == 1 then
      Decoded([], false)
    else
      var rest := Decode(s[2..]);
      Decoded([ProcessOne(s[1])] + rest.text, rest.complete)
  }

  /** binary_encode: walks the string and inserts an escape byte before each special one. */
  method BinaryEncode(s: ByteString)
    modifies s
    ensures s.text == Encode(old(s.text)) == SpelledOut(old(s.text))
  {
    EncodeIsSpelledOut(s.text);
    var it := 0;
    while it < |s.text|
      invariant 0 <= it <= |s.text|
      invariant s.text[..it] + Encode(s.text[it..]) == Encode(old(s.text))
      decreases |s.text| - it
    {
      ghost var done, todo := s.text[..it], s.text[it + 1..];
      ghost var b := s.text[it];
      assert s.text[it..][1..] == todo;
      if IsSpecial(s.text[it]) {
        s.text := s.text[it := ProcessOne(s.text[it])];
        s.text := s.text[..it] + [ESCAPE] + s.text[it..];
        it := it + 1;
      }
      it := it + 1;
      assert s.text[..it] == done + EncodeByte(b);
      assert s.text[it..] == todo;
      Associative(done, EncodeByte(b), Encode(todo));
    }
  }

  /** binary_decode: drops each escape byte and restores the byte after it.  The result is
      false where the source throws because the string ends with an unpaired escape. */
  method BinaryDecode(s: ByteString) returns (ok: bool)
    modifies s
    ensures Decoded(s.text, ok) == Decode(old(s.text))
  {
    hide Decode;
    var it := 0;
    assert s.text[..0] == [] && s.text[0..] == s.text;
    while it < |s.text|
      invariant 0 <= it <= |s.text|
      invariant Decode(old(s.text)).text == s.text[..it] + Decode(s.text[it..]).text
      invariant Decode(old(s.text)).complete == Decode(s.text[it..]).complete
      decreases |s.text| - it
    {
      ghost var before := s.text;
      if s.text[it] == ESCAPE {
        s.text := s.text[..it] + s.text[it + 1..];
        if it == |s.text| {
          assert before[it..] == [ESCAPE] && s.text == before[..it] + [];
          DecodeEnds();
          return false;
        }
        s.text := s.text[it := ProcessOne(s.text[it])];
        DecodeEscaped(before[it..]);
        assert before[it..][2..] == s.text[it + 1..];
      } else {
        DecodePlain(before[it..]);
        assert before[it..][1..] == s.text[it + 1..];
      }
      it := it + 1;
      assert s.text[..it] == before[..it - 1] + [s.text[it - 1]];
      Associative(before[..it - 1], [s.text[it - 1]], Decode(s.text[it..]).text);
    }
    assert s.text[it..] == [] && s.text[..it] + [] == s.text;
    DecodeEnds();
    return true;
  }

  lemma DecodeEnds()
    ensures Decode([]) == Decoded([], true) && Decode([ESCAPE]) == Decoded([], false)
  {
  }

  lemma DecodeEscaped(s: seq<byte>)
    requires |s| >= 2 && s[0] == ESCAPE
    ensures Decode(s) == Decoded([ProcessOne(s[1])] + Decode(s[2..]).text, Decode(s[2..]).complete)
  {
  }

  lemma DecodePlain(s: seq<byte>)
    requires s != [] && s[0] != ESCAPE
    ensures Decode(s) == Decoded([s[0]] + Decode(s[1..]).text, Decode(s[1..]).complete)
  {
  }

  /** What encoding promises about the byte at one place of the wire form: it is no end
      marker, and if it is an escape byte then an encoded 0xfe or 0xff follows. */
  predicate CanonicalAt(t: seq<byte>, i: nat)
    requires i < |t|
  {
    && t[i] != MESSAGE_END
    && (t[i] == ESCAPE ==> i + 1 < |t| && (t[i + 1] == 0xbe || t[i + 1] == 0xbf))
  }

  ghost predicate Canonical(t: seq<byte>) {
    forall i: nat | i < |t| :: CanonicalAt(t, i)
  }

  function CountSpecial(s: seq<byte>): nat {
    if s == [] then 0 else (if IsSpecial(s[0]) then 1 else 0) + CountSpecial(s[1..])
  }

  /** Length of the run of escape bytes at the end of a string. */
  function TrailingEscapes(s: seq<byte>): (n: nat)
    ensures n <= |s|
  {
    if s == [] || s[|s| - 1] != ESCAPE then 0 else 1 + TrailingEscapes(s[..|s| - 1])
  }

  lemma {:induction false} EncodeIsCanonical(s: seq<byte>)
    ensures Canonical(Encode(s))
    ensures |Encode(s)| == |s| + CountSpecial(s)
  {
    if s != [] {
      EncodeIsCanonical(s[1..]);
      var head, tail := EncodeByte(s[0]), Encode(s[1..]);
      forall i: nat | i < |head + tail|
        ensures CanonicalAt(head + tail, i)
      {
        if i >= |head| {
          assert CanonicalAt(tail, i - |head|);
        }
      }
    }
  }

  /** What one byte of a body looks like on the wire. */
  function Spelling(b: byte): seq<byte> {
    if b == 0xff then [0xfe, 0xbf] else if b == 0xfe then [0xfe, 0xbe] else [b]
  }

  function SpelledOut(body: seq<byte>): seq<byte> {
    if body == [] then [] else Spelling(body[0]) + SpelledOut(body[1..])
  }

  /** The bytes of the wire format: 0xff and 0xfe travel as pairs, all others as they are, and
      0xff itself is never among them. */
  lemma {:induction false} EncodeIsSpelledOut(s: seq<byte>)
    ensures Encode(s) == SpelledOut(s) && 0xff !in SpelledOut(s)
  {
    if s != [] {
      EncodeIsSpelledOut(s[1..]);
      assert EncodeByte(s[0]) == Spelling(s[0]) && 0xff !in Spelling(s[0]);
    }
  }

  /** Whatever byte follows 0xfe, also one that no encoder writes there, is decoded by the
      same xor; any other byte stands for itself. */
  lemma DecodeFlipsAnyPair(b: byte, x: bv8, after: seq<byte>)
    requires b == x as int
    ensures Decode([0xfe, b] + after) == Decoded([(x ^ 0x40) as int] + Decode(after).text, Decode(after).complete)
    ensures b != 0xfe ==> Decode([b] + after) == Decoded([b] + Decode(after).text, Decode(after).complete)
  {
    ProcessOneIsXor(b, x);
    assert ([0xfe, b] + after)[2..] == after && ([b] + after)[1..] == after;
    DecodeEscaped([0xfe, b] + after);
  }

  lemma {:induction false} DecodeInvertsEncode(s: seq<byte>)
    ensures Decode(Encode(s)) == Decoded(s, true)
  {
    if s != [] {
      DecodeInvertsEncode(s[1..]);
      DecodeAfterOne(s[0], Encode(s[1..]));
      assert s == [s[0]] + s[1..];
    }
  }

  lemma DecodeAfterOne(b: byte, tail: seq<byte>)
    ensures Decode(EncodeByte(b) + tail) == Decoded([b] + Decode(tail).text, Decode(tail).complete)
  {
    var t := EncodeByte(b) + tail;
    if IsSpecial(b) {
      assert t[0] == ESCAPE && t[1] == ProcessOne(b);
      assert t[2..] == tail;
      assert ProcessOne(ProcessOne(b)) == b;
    } else {
      assert t[0] == b;
      assert t[1..] == tail;
    }
  }

  lemma {:induction false} CanonicalSuffix(t: seq<byte>, n: nat)
    requires Canonical(t) && n <= |t|
    ensures Canonical(t[n..])
  {
    forall i: nat | i < |t[n..]|
      ensures CanonicalAt(t[n..], i)
    {
      assert CanonicalAt(t, n + i);
    }
  }

  /** A byte string is a wire form exactly when it is canonical. */
  lemma {:induction false} CanonicalIsImageOfEncode(t: seq<byte>)
    ensures Canonical(t) <==> Decode(t).complete && Encode(Decode(t).text) == t
  {
    if Canonical(t) {
      EncodeInvertsDecode(t);
    }
    if Decode(t).complete && Encode(Decode(t).text) == t {
      EncodeIsCanonical(Decode(t).text);
    }
  }

  lemma {:induction false} EncodeInvertsDecode(t: seq<byte>)
    requires Canonical(t)
    ensures Decode(t).complete && Encode(Decode(t).text) == t
  {
    if t == [] {
    } else if t[0] == ESCAPE {
      assert CanonicalAt(t, 0);
      CanonicalSuffix(t, 2);
      EncodeInvertsDecode(t[2..]);
      var d := Decode(t);
      assert d.text[1..] == Decode(t[2..]).text;
      assert t == [t[0], t[1]] + t[2..];
    } else {
      assert CanonicalAt(t, 0);
      CanonicalSuffix(t, 1);
      EncodeInvertsDecode(t[1..]);
      var d := Decode(t);
      assert d.text[1..] == Decode(t[1..]).text;
      assert t == [t[0]] + t[1..];
    }
  }

  /** Decoding throws exactly when the input ends with an odd run of escape bytes. */
  lemma {:induction false} DecodeThrowsIff(s: seq<byte>)
    ensures Decode(s).complete <==> TrailingEscapes(s) % 2 == 0
    decreases |s|
  {
    hide TrailingEscapes;
    ShortRuns();
    if s == [] {
    } else if s[0] != ESCAPE {
      DecodeThrowsIff(s[1..]);
      RunBehindPlainByte(s);
    } else if |s| > 1 {
      DecodeThrowsIff(s[2..]);
      RunBehindEscapePair(s);
    } else {
      assert s == [ESCAPE];
    }
  }

  lemma ShortRuns()
    ensures TrailingEscapes([]) == 0 && TrailingEscapes([ESCAPE]) == 1
  {
    assert [ESCAPE][..0] == [];
  }

  lemma RunBehindPlainByte(s: seq<byte>)
    requires s != [] && s[0] != ESCAPE
    ensures TrailingEscapes(s) == TrailingEscapes(s[1..])
  {
    TrailingEscapesOfSuffix(s, 1);
  }

  lemma RunBehindEscapePair(s: seq<byte>)
    requires |s| > 1 && s[0] == ESCAPE
    ensures TrailingEscapes(s) == TrailingEscapes(s[2..]) || TrailingEscapes(s) == TrailingEscapes(s[2..]) + 2
  {
    TrailingEscapesOfSuffix(s, 2);
    if s[1] == ESCAPE {
      ShortRuns();
      assert s[..2][..1] == [ESCAPE];
    }
  }

  lemma {:induction false} TrailingEscapesOfSuffix(s: seq<byte>, n: nat)
    requires n <= |s|
    ensures TrailingEscapes(s[n..]) < |s| - n ==> TrailingEscapes(s) == TrailingEscapes(s[n..])
    ensures TrailingEscapes(s[n..]) == |s| - n ==> TrailingEscapes(s) == |s| - n + TrailingEscapes(s[..n])
    decreases |s|
  {
    if |s| == n {
      assert s[..n] == s;
    } else if s[|s| - 1] == ESCAPE {
      var shorter := s[..|s| - 1];
      TrailingEscapesOfSuffix(shorter, n);
      assert shorter[n..] == s[n..][..|s| - n - 1];
      assert shorter[..n] == s[..n];
    }
  }
}
