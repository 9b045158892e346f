/**
 process_hex_str: replaces each `\x` and the hexadecimal digits after it by the byte they
 spell.  A replaced byte can complete a new `\x` with its neighbours, so the source starts
 over from the front after each replacement.
 */
module HexStrings {
  import opened BasicDetail
  import opened BinCodec

  const BACKSLASH: byte := 0x5c
  const LETTER_X: byte := 0x78

  datatype Outcome = Done | NoDigits | TooBig

  predicate TokenAt(s: seq<byte>, i: nat) {
    i + 1 < |s| && s[i] == BACKSLASH && s[i + 1] == LETTER_X
  }

  /** s.find("\\x", from): the first place at or after `from`, or the length. */
  function FindToken(s: seq<byte>, from: nat): (pos: nat)
    requires from <= |s|
    ensures from <= pos <= |s|
    ensures pos < |s| ==> TokenAt(s, pos)
    ensures forall i | from <= i < pos :: !TokenAt(s, i)
    decreases |s| - from
  {
    if from == |s| || TokenAt(s, from) then from else FindToken(s, from + 1)
  }

  predicate IsHexDigit(b: byte) {
    0x30 <= b <= 0x39 || 0x41 <= b <= 0x46 || 0x61 <= b <= 0x66
  }

  function DigitValue(b: byte): nat
    requires IsHexDigit(b)
  {
    if b <= 0x39 then b - 0x30 else if b <= 0x46 then b - 0x41 + 10 else b - 0x61 + 10
  }

  function DigitsEnd(s: seq<byte>, pos: nat): (end: nat)
    requires pos <= |s|
    ensures pos <= end <= |s|
    ensures forall i | pos <= i < end :: IsHexDigit(s[i])
    ensures end < |s| ==> !IsHexDigit(s[end])
    decreases |s| - pos
  {
    if pos < |s| && IsHexDigit(s[pos]) then DigitsEnd(s, pos + 1) else pos
  }

  /** The number a run of digits spells, the most significant first.  One that overflows the
      source's size_t is read as the largest, and both are too big for a char. */
  function HexValue(digits: seq<byte>): nat
    requires forall i | 0 <= i < |digits| :: IsHexDigit(digits[i])
  {
    if digits == [] then 0 else 16 * HexValue(digits[..|digits| - 1]) + DigitValue(digits[|digits| - 1])
  }

  /** One replacement at the token at `pos`, or the reason why it throws. */
  function Replace(s: seq<byte>, pos: nat): (r: (seq<byte>, Outcome))
    requires TokenAt(s, pos)
    ensures r.1 == Done ==> |r.0| < |s| && pos < |r.0| && r.0[..pos] == s[..pos]
    ensures r.1 != Done ==> r.0 == s
  {
    var end := DigitsEnd(s, pos + 2);
    if end == pos + 2 then (s, NoDigits)
    else if HexValue(s[pos + 2..end]) > 255 then (s, TooBig)
    else (s[..pos] + [HexValue(s[pos + 2..end])] + s[end..], Done)
  }

  /** What the string holds when process_hex_str returns or throws. */
  function Processed(s: seq<byte>): (seq<byte>, Outcome)
    decreases |s|
  {
    var pos := FindToken(s, 0);
    if pos == |s| then (s, Done)
    else
      var (t, outcome) := Replace(s, pos);
      if outcome == Done then Processed(t) else (t, outcome)
  }

  /** `stream >> hex >> charCode` on a string of digits. */
  method ReadHex(digits: seq<byte>) returns (charCode: nat)
    requires forall i | 0 <= i < |digits| :: IsHexDigit(digits[i])
    ensures charCode == HexValue(digits)
  {
    charCode := 0;
    for i := 0 to |digits|
      invariant charCode == HexValue(digits[..i])
    {
      assert digits[..i + 1][..i] == digits[..i];
      charCode := 16 * charCode + DigitValue(digits[i]);
    }
    assert digits[..|digits|] == digits;
  }

  /** The inner loop: the end of the digits. */
  method ScanDigits(s: seq<byte>, pos: nat) returns (end: nat)
    requires pos <= |s|
    ensures end == DigitsEnd(s, pos)
  {
    end := pos;
    while end < |s| && IsHexDigit(s[end])
      invariant pos <= end <= |s|
      invariant DigitsEnd(s, end) == DigitsEnd(s, pos)
    {
      end := end + 1;
    }
  }

  lemma ProcessedUnfolds(s: seq<byte>)
    ensures var pos := FindToken(s, 0);
            Processed(s) ==
            if pos == |s| then (s, Done)
            else var r := Replace(s, pos); if r.1 == Done then Processed(r.0) else r
  {
  }

  method ProcessHexStr(s: ByteString) returns (outcome: Outcome)
    modifies s
    ensures (s.text, outcome) == Processed(old(s.text))
  {
    var pos := FindToken(s.text, 0);
    while pos != |s.text|
      invariant pos == FindToken(s.text, 0)
      invariant Processed(s.text) == Processed(old(s.text))
      decreases |s.text|
    {
      hide Processed, HexValue;
      pos := pos + 2;
      var end := ScanDigits(s.text, pos);
      ProcessedUnfolds(s.text);
      if end == pos {
        return NoDigits;
      }
      var charCode := ReadHex(s.text[pos..end]);
      if charCode > 255 {
        return TooBig;
      }
      pos := pos - 2;
      assert Replace(s.text, pos) == (s.text[..pos] + [charCode] + s.text[end..], Done);
      s.text := s.text[..pos] + [charCode] + s.text[end..];
      pos := FindToken(s.text, 0);
    }
    return Done;
  }

  /** The result holds no `\x`, is no longer than the input, and processing it again
      changes nothing. */
  lemma {:induction false} ProcessedIsFixedPoint(s: seq<byte>)
    ensures |Processed(s).0| <= |s|
    ensures Processed(s).1 == Done ==>
              && (forall i: nat :: !TokenAt(Processed(s).0, i))
              && Processed(Processed(s).0) == Processed(s)
    decreases |s|
  {
    var pos := FindToken(s, 0);
    if pos < |s| && Replace(s, pos).1 == Done {
      ProcessedIsFixedPoint(Replace(s, pos).0);
    }
  }

  /** Only strings with a token are changed. */
  lemma ProcessedIsIdentityIff(s: seq<byte>)
    ensures Processed(s) == (s, Done) <==> forall i: nat :: !TokenAt(s, i)
  {
    var pos := FindToken(s, 0);
    if pos < |s| {
      assert TokenAt(s, pos);
      if Replace(s, pos).1 == Done {
        ProcessedIsFixedPoint(Replace(s, pos).0);
      }
    }
  }

  /** The same work without starting over: the search goes on one place before the byte
      that was just put in. */
  function ProcessedFrom(s: seq<byte>, from: nat): (seq<byte>, Outcome)
    requires from <= |s|
    decreases |s|
  {
    var pos := FindToken(s, from);
    if pos == |s| then (s, Done)
    else
      var (t, outcome) := Replace(s, pos);
      if outcome == Done then ProcessedFrom(t, if pos == 0 then 0 else pos - 1) else (t, outcome)
  }

  /** A new token can begin at the earliest one place before the replaced byte. */
  lemma NoEarlierToken(s: seq<byte>, pos: nat, i: nat)
    requires pos == FindToken(s, 0) < |s| && Replace(s, pos).1 == Done && i + 1 < pos
    ensures !TokenAt(Replace(s, pos).0, i)
  {
    var t := Replace(s, pos).0;
    assert t[..pos][i] == s[..pos][i] && t[..pos][i + 1] == s[..pos][i + 1];
    assert !TokenAt(s, i);
  }

  lemma SkippingFindsTheSame(s: seq<byte>, from: nat)
    requires from <= |s| && forall i: nat | i < from :: !TokenAt(s, i)
    ensures FindToken(s, from) == FindToken(s, 0)
  {
  }

  /** Going back one place refines starting over from the front. */
  lemma {:induction false} RestartIsUnnecessary(s: seq<byte>, from: nat)
    requires from <= |s| && forall i: nat | i < from :: !TokenAt(s, i)
    ensures ProcessedFrom(s, from) == Processed(s)
    decreases |s|
  {
    SkippingFindsTheSame(s, from);
    var pos := FindToken(s, 0);
    if pos < |s| && Replace(s, pos).1 == Done {
      var t, next := Replace(s, pos).0, if pos == 0 then 0 else pos - 1;
      forall i: nat | i < next
        ensures !TokenAt(t, i)
      {
        NoEarlierToken(s, pos, i);
      }
      RestartIsUnnecessary(t, next);
    }
  }

  // ---- writing what is read ---------------------------------------------------------

  const LOWER_DIGITS: string := "0123456789abcdef"
  const UPPER_DIGITS: string := "0123456789ABCDEF"

  function HexChar(d: nat, upper: bool): (c: byte)
    requires d < 16
    ensures IsHexDigit(c)
  {
    (if upper then UPPER_DIGITS[d] else LOWER_DIGITS[d]) as int
  }

  /** Every byte as a token of two digits. */
  function Escaped(s: seq<byte>, upper: bool): seq<byte> {
    if s == [] then []
    else [0x5c, 0x78, HexChar(s[0] / 16, upper), HexChar(s[0] % 16, upper)] + Escaped(s[1..], upper)
  }

  lemma DigitsAreWhatTheySay(d: nat, upper: bool)
    requires d < 16
    ensures DigitValue(HexChar(d, upper)) == d
  {
  }

  /** A number fits a byte exactly if all of its digits but the last two are zeros. */
  lemma {:induction false} FitsByteIff(digits: seq<byte>)
    requires forall i | 0 <= i < |digits| :: IsHexDigit(digits[i])
    ensures HexValue(digits) == 0 <==> forall i | 0 <= i < |digits| :: digits[i] == 0x30
    ensures HexValue(digits) <= 0xff <==> forall i | 0 <= i < |digits| - 2 :: digits[i] == 0x30
  {
    var n := |digits|;
    if n > 0 {
      var high := digits[..n - 1];
      FitsByteIff(high);
      if n > 1 {
        FitsByteIff(high[..n - 2]);
        assert HexValue(high) == 16 * HexValue(high[..n - 2]) + DigitValue(digits[n - 2]);
      }
    }
  }

  lemma DigitsEndIs(s: seq<byte>, pos: nat, end: nat)
    requires pos <= end <= |s| && forall i | pos <= i < end :: IsHexDigit(s[i])
    requires end < |s| ==> !IsHexDigit(s[end])
    ensures DigitsEnd(s, pos) == end
  {
  }

  /** A token with all of its digits, wherever it stands. */
  lemma TokenIsReplaced(before: seq<byte>, digits: seq<byte>, after: seq<byte>)
    requires forall i | 0 <= i < |digits| :: IsHexDigit(digits[i])
    requires after != [] ==> !IsHexDigit(after[0])
    ensures var s := before + [0x5c, 0x78] + digits + after;
            && TokenAt(s, |before|)
            && Replace(s, |before|) == if digits == [] then (s, NoDigits)
                                       else if HexValue(digits) > 0xff then (s, TooBig)
                                       else (before + [HexValue(digits)] + after, Done)
  {
    var s := before + [0x5c, 0x78] + digits + after;
    var pos := |before| + 2;
    DigitsEndIs(s, pos, pos + |digits|);
    assert s[pos..pos + |digits|] == digits && s[..|before|] == before && s[pos + |digits|..] == after;
  }

  lemma FindTokenIs(s: seq<byte>, pos: nat)
    requires pos <= |s| && (pos < |s| ==> TokenAt(s, pos)) && forall i: nat | i < pos :: !TokenAt(s, i)
    ensures FindToken(s, 0) == pos
  {
  }

  lemma TwoDigits(b: byte, upper: bool)
    ensures HexValue([HexChar(b / 16, upper), HexChar(b % 16, upper)]) == b
  {
    var digits := [HexChar(b / 16, upper), HexChar(b % 16, upper)];
    DigitsAreWhatTheySay(b / 16, upper);
    DigitsAreWhatTheySay(b % 16, upper);
    var high := digits[..1];
    assert high[..0] == [];
    assert HexValue(high) == DigitValue(digits[0]);
    assert HexValue(digits) == 16 * HexValue(high) + DigitValue(digits[1]);
  }

  /** The first byte of the rest as a token, where no token stands before it. */
  lemma FirstIsReplaced(done: seq<byte>, todo: seq<byte>, upper: bool)
    requires todo != []
    requires var s := done + Escaped(todo, upper); forall i: nat | i < |done| :: !TokenAt(s, i)
    ensures var s := done + Escaped(todo, upper);
            && FindToken(s, 0) == |done| < |s| && TokenAt(s, |done|)
            && Replace(s, |done|) == ((done + [todo[0]]) + Escaped(todo[1..], upper), Done)
  {
    hide Replace, HexValue, HexChar;
    var digits, after := [HexChar(todo[0] / 16, upper), HexChar(todo[0] % 16, upper)], Escaped(todo[1..], upper);
    assert done + Escaped(todo, upper) == done + [0x5c, 0x78] + digits + after;
    TwoDigits(todo[0], upper);
    TokenIsReplaced(done, digits, after);
    FindTokenIs(done + Escaped(todo, upper), |done|);
  }

  lemma {:induction false} RestIsProcessed(done: seq<byte>, todo: seq<byte>, upper: bool)
    requires forall i: nat :: !TokenAt(done + todo, i)
    ensures Processed(done + Escaped(todo, upper)) == (done + todo, Done)
    decreases |todo|
  {
    hide Processed, Replace, HexValue, HexChar;
    var s := done + Escaped(todo, upper);
    ProcessedUnfolds(s);
    forall i: nat | i < |done|
      ensures !TokenAt(s, i)
    {
      assert !TokenAt(done + todo, i);
    }
    if todo == [] {
      assert s == done + todo == done;
      FindTokenIs(s, |s|);
    } else {
      FirstIsReplaced(done, todo, upper);
      assert (done + [todo[0]]) + todo[1..] == done + todo;
      RestIsProcessed(done + [todo[0]], todo[1..], upper);
    }
  }

  /** A string written as tokens, in small or capital digits, is read back exactly if it holds
      no token itself: such a one would be replaced again. */
  lemma EscapedReadsBackIff(s: seq<byte>, upper: bool)
    ensures Processed(Escaped(s, upper)) == (s, Done) <==> forall i: nat :: !TokenAt(s, i)
  {
    if forall i: nat :: !TokenAt(s, i) {
      assert [] + s == s && [] + Escaped(s, upper) == Escaped(s, upper);
      RestIsProcessed([], s, upper);
    } else {
      ProcessedIsFixedPoint(Escaped(s, upper));
    }
  }
}
