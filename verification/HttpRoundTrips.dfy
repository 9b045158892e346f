/**
 Which HTTP messages survive being printed and read back: the exact condition, in terms of
 what a caller can look at before printing.
 */
module HttpRoundTrips {
  import opened HttpHeaders
  import opened HttpMessages
  import opened Optional

  predicate IsClean(s: string) {
    IsTrimmed(s) && '\r' !in s && '\0' !in s
  }

  /** What the parser can produce: no other header can come out of it. */
  predicate IsParseable(e: Entry) {
    ':' !in e.name && IsClean(e.name) && IsClean(e.value)
  }

  /** The line fits the parser's buffer.  The last one may be longer by the blank that
      follows the colon, because nothing is read after it. */
  predicate FitsLine(e: Entry, last: bool) {
    |PrintEntry(e)| < LINE_BUFFER || (last && e.value == "" && |PrintEntry(e)| == LINE_BUFFER)
  }

  predicate IsPrintable(e: Entry, last: bool) {
    e.name != "" && IsParseable(e) && FitsLine(e, last)
  }

  ghost predicate ArePrintable(m: seq<Entry>) {
    forall i | 0 <= i < |m| :: IsPrintable(m[i], i == |m| - 1)
  }

  ghost predicate AreParseable(m: seq<Entry>) {
    forall i | 0 <= i < |m| :: IsParseable(m[i])
  }

  /** The exact condition for a message to be read back. */
  ghost predicate IsWellFormed(m: Message) {
    && IsReadable(m.first) && Find(FirstStr(m.first), SEPARATOR).None?
    && m.headers != [] && ArePrintable(m.headers)
  }

  /** What reading gives at best: the message, and its first line under the empty name. */
  function ReadBack(m: Message): Message {
    m.(headers := [Entry("", FirstStr(m.first))] + m.headers)
  }

  // ---- printable headers are read back ----------------------------------------------

  lemma {:induction false} InsertAtEnd(m: seq<Entry>, e: Entry)
    requires forall i | 0 <= i < |m| :: !Less(e.name, m[i].name)
    ensures Insert(m, e) == m + [e]
  {
    if m != [] {
      InsertAtEnd(m[1..], e);
      assert [m[0]] + (m[1..] + [e]) == m + [e];
    }
  }

  lemma PrintedEntry(e: Entry)
    requires e.name != "" && IsParseable(e)
    ensures var line := PrintEntry(e);
            line != "" && line[0] != '\r' && '\r' !in line && '\0' !in line && ParseEntry(line) == Some(e)
  {
    EntryReadsBackIff(e);
  }

  /** The last line when it is one char too long: the buffer ends right after the colon. */
  lemma CutLineReadsBack(e: Entry)
    requires e.name != "" && IsParseable(e) && e.value == "" && |PrintEntry(e)| == LINE_BUFFER
    ensures var next := NextLine(PrintEntry(e));
            !next.more && ParseEntry(CString(next.text)) == Some(e)
  {
    var line, next := PrintEntry(e), NextLine(PrintEntry(e));
    PrintedEntry(e);
    FindCharAfter(line, "", '\r');
    assert line + "" == line && next.text == e.name + ":";
    CStringIs(next.text);
    FindCharAfter(e.name, ":", ':');
    assert next.text[..|e.name|] == e.name && next.text[|e.name| + 1..] == "";
    TrimIs(e.name);
    TrimIs("");
  }

  lemma LastLineReadsBack(e: Entry)
    requires IsPrintable(e, true)
    ensures var next := NextLine(PrintEntry(e));
            !next.more && ParseEntry(CString(next.text)) == Some(e)
  {
    PrintedEntry(e);
    if |PrintEntry(e)| < LINE_BUFFER {
      LastLineSurvives(PrintEntry(e));
    } else {
      CutLineReadsBack(e);
    }
  }

  lemma EarlierLineReadsBack(e: Entry, rest: string)
    requires IsPrintable(e, false)
    ensures var next := NextLine(PrintEntry(e) + SEPARATOR + rest);
            next.more && next.after == rest && ParseEntry(CString(next.text)) == Some(e)
  {
    PrintedEntry(e);
    LineSurvivesIff(PrintEntry(e), rest);
  }

  lemma {:induction false} LinesParseBack(acc: seq<Entry>, m: seq<Entry>)
    requires m != [] && ArePrintable(m) && Sorted(acc + m)
    ensures ParseLines(Lines(m), acc) == Some(acc + m)
    decreases |m|
  {
    hide PrintEntry, ParseEntry, NextLine, CString, Less, IsPrintable;
    forall i | 0 <= i < |acc|
      ensures !Less(m[0].name, acc[i].name)
    {
      assert (acc + m)[i] == acc[i] && (acc + m)[|acc|] == m[0];
    }
    InsertAtEnd(acc, m[0]);
    if |m| == 1 {
      LastLineReadsBack(m[0]);
      assert m == [m[0]];
    } else {
      assert IsPrintable(m[0], false);
      EarlierLineReadsBack(m[0], Lines(m[1..]));
      assert (acc + [m[0]]) + m[1..] == acc + m;
      LinesParseBack(acc + [m[0]], m[1..]);
    }
  }

  // ---- where the header ends --------------------------------------------------------

  /** No place in a block of lines looks like the end of the header. */
  ghost predicate NoGap(block: string) {
    forall i | 0 <= i < |block| && block[i] == '\r' ::
      i + 2 < |block| && block[i + 1] == '\n' && block[i + 2] != '\r'
  }

  lemma JoinHasNoGap(line: string, block: string)
    requires '\r' !in line && NoGap(block) && block != "" && block[0] != '\r'
    ensures NoGap(line + SEPARATOR + block)
  {
  }

  lemma {:induction false} LinesHaveNoGap(m: seq<Entry>)
    requires m != [] && ArePrintable(m)
    ensures NoGap(Lines(m)) && Lines(m) != "" && Lines(m)[0] != '\r'
    decreases |m|
  {
    hide PrintEntry, IsParseable;
    PrintedEntry(m[0]);
    if |m| > 1 {
      LinesHaveNoGap(m[1..]);
      JoinHasNoGap(PrintEntry(m[0]), Lines(m[1..]));
    }
  }

  /** The end of the header is found where it was printed: not in the first line, which holds
      no separator, not across its end, and not in a block of lines. */
  lemma SeparatorFound(line: string, block: string, data: string)
    requires Find(line, SEPARATOR).None? && NoGap(block) && block != "" && block[0] != '\r'
    ensures var head := line + SEPARATOR + block;
            Find(head + HEAD_BODY_SEPARATOR + data, HEAD_BODY_SEPARATOR) == Some(|head|)
  {
    var head := line + SEPARATOR + block;
    var text := head + HEAD_BODY_SEPARATOR + data;
    forall i | 0 <= i < |head|
      ensures !At(text, HEAD_BODY_SEPARATOR, i)
    {
      AtMeans(text, HEAD_BODY_SEPARATOR, i, 0);
      AtMeans(text, HEAD_BODY_SEPARATOR, i, 1);
      AtMeans(text, HEAD_BODY_SEPARATOR, i, 2);
      if i + 2 <= |line| {
        NotInLine(line, i);
        assert text[i] == line[i] && text[i + 1] == line[i + 1];
      } else if i >= |line| + 2 {
        assert text[i] == block[i - |line| - 2];
      }
    }
    FindIs(text, HEAD_BODY_SEPARATOR, |head|);
  }

  lemma NotInLine(line: string, i: nat)
    requires Find(line, SEPARATOR).None? && i + 2 <= |line|
    ensures !(line[i] == '\r' && line[i + 1] == '\n')
  {
    assert !At(line, SEPARATOR, i);
    assert line[i..i + 2] == [line[i], line[i + 1]];
  }

  lemma FirstLineFound(line: string, block: string)
    requires Find(line, SEPARATOR).None?
    ensures Find(line + SEPARATOR + block, SEPARATOR) == Some(|line|)
  {
    var text := line + SEPARATOR + block;
    forall i | 0 <= i < |line|
      ensures !At(text, SEPARATOR, i)
    {
      AtMeans(text, SEPARATOR, i, 0);
      AtMeans(text, SEPARATOR, i, 1);
      if i + 2 <= |line| {
        NotInLine(line, i);
        assert text[i] == line[i] && text[i + 1] == line[i + 1];
      }
    }
    FindIs(text, SEPARATOR, |line|);
  }

  // ---- well-formed messages are read back -------------------------------------------

  lemma FirstReadsBack(f: FirstLine, blank: FirstLine)
    requires IsReadable(f) && f.Response? == blank.Response?
    ensures ReadFirst(blank, Trim(FirstStr(f))) == (f, true) && Trim(FirstStr(f)) == FirstStr(f)
  {
    match f
    case Response(code) =>
      ResponseReadsBackIff(code, blank.statusCode);
      var s := FirstStr(f);
      assert s[0] == 'H' && s[|s| - 1] == code[|code| - 1];
      TrimIs(s);
    case Request(name, uri) => RequestReadsBack(name, uri, blank);
  }

  lemma SortedWithFirst(e: Entry, m: seq<Entry>)
    requires Sorted(m) && e.name == ""
    ensures Sorted([e] + m)
  {
  }

  /** The text of a message with headers, and where its header ends. */
  lemma SerializedIs(m: Message)
    requires m.headers != []
    ensures Serialized(m) == FirstStr(m.first) + SEPARATOR + Lines(m.headers) + HEAD_BODY_SEPARATOR + m.data
  {
    HeadersStrIsLines(m.headers);
    assert SEPARATOR + SEPARATOR == HEAD_BODY_SEPARATOR;
  }

  lemma HeaderReadsBack(m: Message)
    requires IsWellFormed(m) && Sorted(m.headers)
    ensures ParseHeader(FirstStr(m.first) + SEPARATOR + Lines(m.headers)) == Some(ReadBack(m).headers)
  {
    hide FirstStr, IsReadable, Trim, ParseLines, Lines, Find, ArePrintable;
    var line, lines := FirstStr(m.first), Lines(m.headers);
    var block := line + SEPARATOR + lines;
    FirstLineFound(line, lines);
    assert block[..|line|] == line && block[|line| + 2..] == lines;
    FirstReadsBack(m.first, m.first);
    SortedWithFirst(Entry("", line), m.headers);
    LinesParseBack([Entry("", line)], m.headers);
  }

  lemma MessageReadsBack(m: Message, blank: Message)
    requires IsWellFormed(m) && Sorted(m.headers) && m.first.Response? == blank.first.Response?
    ensures Unserialized(blank, Serialized(m)) == (ReadBack(m), true)
  {
    hide FirstStr, Serialized, IsReadable, ReadFirst, Trim, NoGap, ParseHeader, Lines, ArePrintable;
    var block := FirstStr(m.first) + SEPARATOR + Lines(m.headers);
    SerializedIs(m);
    LinesHaveNoGap(m.headers);
    SeparatorFound(FirstStr(m.first), Lines(m.headers), m.data);
    assert Serialized(m)[..|block|] == block && Serialized(m)[|block| + 4..] == m.data;
    HeaderReadsBack(m);
    FirstReadsBack(m.first, blank.first);
    FirstValueOf(Entry("", FirstStr(m.first)), m.headers);
  }

  lemma FirstValueOf(e: Entry, m: seq<Entry>)
    ensures ValuesOf([e] + m, e.name) != [] && ValuesOf([e] + m, e.name)[0] == e.value
  {
  }

  // ---- nothing else is --------------------------------------------------------------

  lemma TrimKeepsOut(s: string, c: char)
    requires c !in s
    ensures c !in Trim(s) && |Trim(s)| <= |s|
  {
    TrimLeftKeepsOut(s, c);
    TrimRightKeepsOut(TrimLeft(s), c);
  }

  lemma {:induction false} TrimLeftKeepsOut(s: string, c: char)
    requires c !in s
    ensures c !in TrimLeft(s) && |TrimLeft(s)| <= |s|
  {
    if s != [] && s[0] == ' ' {
      TrimLeftKeepsOut(s[1..], c);
    }
  }

  lemma {:induction false} TrimRightKeepsOut(s: string, c: char)
    requires c !in s
    ensures c !in TrimRight(s) && |TrimRight(s)| <= |s|
  {
    if s != [] && s[|s| - 1] == ' ' {
      TrimRightKeepsOut(s[..|s| - 1], c);
    }
  }

  /** Every header the parser makes from a line is parseable and shorter than the line. */
  lemma ParsedEntryIsParseable(line: string)
    requires '\r' !in line && '\0' !in line && ParseEntry(line).Some?
    ensures var e := ParseEntry(line).value; IsParseable(e) && |e.name| + |e.value| < |line|
  {
    var i := FindChar(line, ':');
    TrimKeepsOut(line[..i], '\r');
    TrimKeepsOut(line[..i], '\0');
    TrimKeepsOut(line[..i], ':');
    TrimKeepsOut(line[i + 1..], '\r');
    TrimKeepsOut(line[i + 1..], '\0');
    TrimIs(line[..i]);
    TrimIs(line[i + 1..]);
  }

  lemma NextLineIsClean(rest: string)
    ensures '\r' !in NextLine(rest).text && '\0' !in CString(NextLine(rest).text) && '\r' !in CString(NextLine(rest).text)
  {
    var n := FindChar(rest, '\r');
    var text := NextLine(rest).text;
    assert text <= rest[..n];
    assert CString(text) <= text;
  }

  lemma {:induction false} InsertKeepsParseable(m: seq<Entry>, e: Entry)
    requires AreParseable(m) && IsParseable(e)
    ensures AreParseable(Insert(m, e)) && |Insert(m, e)| == |m| + 1
  {
    hide IsParseable;
    if m != [] && !Less(e.name, m[0].name) {
      InsertKeepsParseable(m[1..], e);
    }
  }

  /** The first line stays in front, and everything behind it was parsed. */
  lemma {:induction false} ParsedLinesAreParseable(rest: string, m: seq<Entry>)
    requires m != [] && m[0].name == "" && AreParseable(m[1..]) && ParseLines(rest, m).Some?
    ensures var r := ParseLines(rest, m).value; |r| > |m| && r[0] == m[0] && AreParseable(r[1..])
    decreases |rest|
  {
    hide ParseEntry, CString, NextLine, AreParseable;
    var line := NextLine(rest);
    var e := ParseEntry(CString(line.text)).value;
    NextLineIsClean(rest);
    ParsedEntryIsParseable(CString(line.text));
    assert Insert(m, e) == [m[0]] + Insert(m[1..], e);
    InsertKeepsParseable(m[1..], e);
    assert Insert(m, e)[1..] == Insert(m[1..], e);
    if line.more {
      ParsedLinesAreParseable(line.after, Insert(m, e));
    }
  }

  /** Number of chars in names and values. */
  function Weight(m: seq<Entry>): nat {
    if m == [] then 0 else |m[0].name| + |m[0].value| + Weight(m[1..])
  }

  lemma {:induction false} InsertAddsWeight(m: seq<Entry>, e: Entry)
    ensures Weight(Insert(m, e)) == Weight(m) + |e.name| + |e.value| && |Insert(m, e)| == |m| + 1
  {
    if m == [] || Less(e.name, m[0].name) {
      assert ([e] + m)[1..] == m;
    } else {
      InsertAddsWeight(m[1..], e);
      assert Insert(m, e)[1..] == Insert(m[1..], e);
    }
  }

  lemma {:induction false} WeightOfAppend(a: seq<Entry>, b: seq<Entry>)
    ensures Weight(a + b) == Weight(a) + Weight(b)
  {
    if a == [] {
      assert a + b == b;
    } else {
      WeightOfAppend(a[1..], b);
      assert (a + b)[1..] == a[1..] + b;
    }
  }

  /** What the parser sees of a printed line. */
  function CutLine(line: string): string {
    if |line| < LINE_BUFFER then line else line[..LINE_BUFFER - 1]
  }

  lemma LineIsCut(line: string, rest: string)
    requires '\r' !in line && '\0' !in line
    ensures var next := NextLine(line + SEPARATOR + rest);
            && CString(next.text) == CutLine(line) && next.more == (|line| < LINE_BUFFER)
            && (next.more ==> next.after == rest)
    ensures CString(NextLine(line).text) == CutLine(line) && !NextLine(line).more
  {
    var text := line + SEPARATOR + rest;
    assert text == line + (SEPARATOR + rest);
    FindCharAfter(line, SEPARATOR + rest, '\r');
    FindCharAfter(line, "", '\r');
    assert line + "" == line;
    assert text[..|line|] == line && text[|line| + 2..] == rest;
    if |line| >= LINE_BUFFER {
      assert text[..LINE_BUFFER - 1] == line[..LINE_BUFFER - 1];
    }
    CStringIs(CutLine(line));
  }

  lemma ColonIsWithin(e: Entry, cut: string)
    requires e.name != "" && ':' !in e.name && cut <= PrintEntry(e)
    ensures ParseEntry(cut).Some? ==> |e.name| < |cut|
  {
    if |e.name| >= |cut| {
      assert cut == e.name[..|cut|];
      FindCharAfter(cut, "", ':');
      assert cut + "" == cut;
    }
  }

  lemma CutParsesTo(e: Entry, cut: string)
    requires e.name != "" && ':' !in e.name && IsTrimmed(e.name) && cut <= PrintEntry(e) && |e.name| < |cut|
    ensures ParseEntry(cut) == Some(Entry(e.name, Trim(cut[|e.name| + 1..])))
    ensures cut[|e.name| + 1..] <= " " + e.value
  {
    hide Trim, FindChar;
    var tail := cut[|e.name|..];
    assert cut == e.name + tail && tail[0] == ':';
    FindCharAfter(e.name, tail, ':');
    FindCharHere(tail, ':');
    TrimIs(e.name);
    assert cut[..|e.name|] == e.name;
    assert PrintEntry(e)[|e.name| + 1..] == " " + e.value;
  }

  /** A header that was cut weighs less, unless only the last blank was cut. */
  lemma CutEntryWeighsLess(e: Entry)
    requires IsParseable(e) && e.name != "" && |PrintEntry(e)| >= LINE_BUFFER
    requires ParseEntry(CutLine(PrintEntry(e))).Some?
    ensures var p := ParseEntry(CutLine(PrintEntry(e))).value;
            && |p.name| + |p.value| <= |e.name| + |e.value|
            && (|p.name| + |p.value| == |e.name| + |e.value| ==> IsPrintable(e, true))
  {
    hide ParseEntry, Trim;
    var cut := CutLine(PrintEntry(e));
    ColonIsWithin(e, cut);
    CutParsesTo(e, cut);
    CutValueIsShort(e, cut[|e.name| + 1..]);
  }

  lemma CutValueIsShort(e: Entry, value: string)
    requires |e.name| + 1 + |value| == LINE_BUFFER - 1 && value <= " " + e.value
    requires e.name != "" && |PrintEntry(e)| >= LINE_BUFFER
    ensures |Trim(value)| < |e.value| || (e.value == "" && |PrintEntry(e)| == LINE_BUFFER && Trim(value) == "")
  {
    if value == "" {
      TrimIs("");
    } else {
      assert value == " " + value[1..];
      TrimAfterBlank(value[1..]);
      TrimLeftEnds(value[1..]);
      TrimRightEnds(TrimLeft(value[1..]));
    }
  }

  /** No printed line is parsed to a header that weighs more, and only a printable one to a
      header that weighs the same. */
  lemma LineWeighsLess(e: Entry)
    requires IsParseable(e) && ParseEntry(CutLine(PrintEntry(e))).Some?
    ensures var p := ParseEntry(CutLine(PrintEntry(e))).value;
            && |p.name| + |p.value| <= |e.name| + |e.value|
            && (|p.name| + |p.value| == |e.name| + |e.value| ==> IsPrintable(e, true))
  {
    var cut := CutLine(PrintEntry(e));
    if e.name == "" {
      assert '\r' !in cut && '\0' !in cut;
      ParsedEntryIsParseable(cut);
    } else if |PrintEntry(e)| < LINE_BUFFER {
      PrintedEntry(e);
    } else {
      CutEntryWeighsLess(e);
    }
  }

  lemma PrintedIsClean(e: Entry)
    requires IsParseable(e)
    ensures '\r' !in PrintEntry(e) && '\0' !in PrintEntry(e)
  {
  }

  /** Parsing printed headers gives no more headers and no more chars than were printed, and
      as many of both only if all of them are printable. */
  lemma {:induction false} LinesWeighLess(acc: seq<Entry>, m: seq<Entry>)
    requires m != [] && AreParseable(m) && ParseLines(Lines(m), acc).Some?
    ensures var r := ParseLines(Lines(m), acc).value;
            && |r| <= |acc| + |m| && Weight(r) <= Weight(acc) + Weight(m)
            && (|r| == |acc| + |m| && Weight(r) == Weight(acc) + Weight(m) ==> ArePrintable(m))
    decreases |m|
  {
    hide PrintEntry, ParseEntry, NextLine, CString, CutLine, IsParseable;
    var line := PrintEntry(m[0]);
    PrintedIsClean(m[0]);
    LineIsCut(line, if |m| == 1 then "" else Lines(m[1..]));
    LineWeighsLess(m[0]);
    var p := ParseEntry(CutLine(line)).value;
    InsertAddsWeight(acc, p);
    if |m| == 1 {
      assert Weight(m[1..]) == 0;
    } else if |line| < LINE_BUFFER {
      LinesWeighLess(Insert(acc, p), m[1..]);
      PrintableCons(m);
    }
  }

  lemma PrintableCons(m: seq<Entry>)
    requires |m| > 1 && |PrintEntry(m[0])| < LINE_BUFFER
    ensures IsPrintable(m[0], true) && ArePrintable(m[1..]) ==> ArePrintable(m)
  {
    forall i | 0 < i < |m|
      ensures m[i] == m[1..][i - 1]
    {
    }
  }

  /** The first line of what was read is what was cut off in front, so the cut was made where
      the first line ends. */
  lemma FirstLineWasWhole(line: string, block: string)
    requires var head := line + SEPARATOR + block;
             Find(head, SEPARATOR).Some? && Trim(head[..Find(head, SEPARATOR).value]) == line
    ensures Find(line + SEPARATOR + block, SEPARATOR) == Some(|line|) && Find(line, SEPARATOR).None?
  {
    var head := line + SEPARATOR + block;
    var j := Find(head, SEPARATOR).value;
    TrimLeftEnds(head[..j]);
    TrimRightEnds(TrimLeft(head[..j]));
    assert At(head, SEPARATOR, |line|);
    forall i: nat | i + |SEPARATOR| <= |line|
      ensures !At(line, SEPARATOR, i)
    {
      assert !At(head, SEPARATOR, i);
      assert head[i..i + 2] == line[i..i + 2];
    }
  }

  /** Where the header was cut follows from the body that was read. */
  lemma BodyTellsHeader(m: Message, blank: Message)
    requires m.headers != [] && Unserialized(blank, Serialized(m)) == (ReadBack(m), true)
    ensures ParseHeader(FirstStr(m.first) + SEPARATOR + Lines(m.headers)) == Some(ReadBack(m).headers)
  {
    hide FirstStr, ParseHeader, Lines, ReadFirst;
    var head := FirstStr(m.first) + SEPARATOR + Lines(m.headers);
    var i := Find(Serialized(m), HEAD_BODY_SEPARATOR).value;
    SerializedIs(m);
    assert |Serialized(m)[i + 4..]| == |m.data|;
    assert i == |head|;
    assert Serialized(m)[..i] == head;
  }

  lemma HeadersAreNeeded(m: Message, blank: Message)
    requires Unserialized(blank, Serialized(m)) == (ReadBack(m), true)
    ensures m.headers != []
  {
    hide FirstStr, Serialized, ReadFirst, ValuesOf, Trim, ParseLines, Find;
    var header := Serialized(m)[..Find(Serialized(m), HEAD_BODY_SEPARATOR).value];
    var i := Find(header, SEPARATOR).value;
    ParsedLinesAreParseable(header[i + |SEPARATOR|..], [Entry("", Trim(header[..i]))]);
  }

  lemma FirstWasReadable(m: Message, blank: Message)
    requires m.first.Response? == blank.first.Response? && Trim(FirstStr(m.first)) == FirstStr(m.first)
    requires ReadFirst(blank.first, FirstStr(m.first)) == (m.first, true)
    ensures IsReadable(m.first)
  {
    hide ReadFirst, Trim;
    match m.first
    case Response(code) => ResponseReadsBackIff(code, blank.first.statusCode);
    case Request(name, uri) => RequestReadsBackIff(name, uri, blank.first);
  }

  lemma ReadMessageIsWellFormed(m: Message, blank: Message)
    requires m.first.Response? == blank.first.Response?
    requires Unserialized(blank, Serialized(m)) == (ReadBack(m), true)
    ensures IsWellFormed(m)
  {
    hide FirstStr, Serialized, ReadFirst, Trim, Lines, ParseLines, ArePrintable, IsReadable, Find, Weight;
    HeadersAreNeeded(m, blank);
    BodyTellsHeader(m, blank);
    var line, lines := FirstStr(m.first), Lines(m.headers);
    var head, first := line + SEPARATOR + lines, [Entry("", line)];
    var j := Find(head, SEPARATOR).value;
    ParsedHasFirst(head);
    assert ReadBack(m).headers[0] == Entry("", line) && ReadBack(m).headers[1..] == m.headers;
    FirstLineWasWhole(line, lines);
    assert head[..j] == line && head[j + 2..] == lines;
    ParsedLinesAreParseable(lines, first);
    LinesWeighLess(first, m.headers);
    WeightOfAppend(first, m.headers);
    FirstValueOf(Entry("", line), m.headers);
    FirstWasReadable(m, blank);
  }

  /** A message is read back as it was printed, plus its first line under the empty name, if
      and only if it is well formed. */
  lemma MessageReadsBackIff(m: Message, blank: Message)
    requires Sorted(m.headers) && m.first.Response? == blank.first.Response?
    ensures Unserialized(blank, Serialized(m)) == (ReadBack(m), true) <==> IsWellFormed(m)
  {
    if IsWellFormed(m) {
      MessageReadsBack(m, blank);
    } else if Unserialized(blank, Serialized(m)) == (ReadBack(m), true) {
      ReadMessageIsWellFormed(m, blank);
    }
  }

  // ---- what follows -----------------------------------------------------------------

  /** Reading is not undone by printing: a message that was read prints its first line twice. */
  lemma ReadMessagePrintsFirstLineTwice(m: Message, blank: Message)
    requires IsWellFormed(m) && Sorted(m.headers) && m.first.Response? == blank.first.Response?
    ensures Serialized(Unserialized(blank, Serialized(m)).0) == FirstStr(m.first) + SEPARATOR + Serialized(m)
  {
    hide Unserialized, HeadersStr, FirstStr, IsReadable, IsWellFormed;
    MessageReadsBack(m, blank);
    var line := FirstStr(m.first) + SEPARATOR;
    HeadersStrCons(Entry("", FirstStr(m.first)), m.headers);
    var lines := HeadersStr(m.headers) + SEPARATOR + m.data;
    assert Serialized(m) == line + lines;
    assert line + (line + HeadersStr(m.headers)) + SEPARATOR + m.data == line + (line + lines);
  }

  lemma HeadersStrCons(e: Entry, m: seq<Entry>)
    ensures HeadersStr([e] + m) == PrintEntry(e) + SEPARATOR + HeadersStr(m)
  {
  }

  /** Without a header line a printed message is refused, unless its first line smuggles the
      separator in. */
  lemma MessageWithoutHeadersIsRejected(m: Message, blank: Message)
    requires m.headers == [] && Find(FirstStr(m.first), SEPARATOR).None?
    ensures !Unserialized(blank, Serialized(m)).1
  {
    hide FirstStr, ParseLines, ReadFirst, Find;
    var line := FirstStr(m.first);
    var text := line + SEPARATOR + (SEPARATOR + m.data);
    assert Serialized(m) == text;
    FirstLineFound(line, SEPARATOR + m.data);
    BlankLineFound(line, m.data);
    assert text[..|line|] == line;
  }

  lemma BlankLineFound(line: string, data: string)
    requires Find(line, SEPARATOR).None?
    ensures Find(line + SEPARATOR + (SEPARATOR + data), HEAD_BODY_SEPARATOR) == Some(|line|)
  {
    hide Find, At;
    var text := line + SEPARATOR + (SEPARATOR + data);
    FirstLineFound(line, SEPARATOR + data);
    forall i | 0 <= i < |line|
      ensures !At(text, HEAD_BODY_SEPARATOR, i)
    {
      NoBlankLineBefore(text, |line|, i);
    }
    IsBlankLine(line, data);
    FindIs(text, HEAD_BODY_SEPARATOR, |line|);
  }

  lemma NoBlankLineBefore(text: string, n: nat, i: nat)
    requires Find(text, SEPARATOR) == Some(n) && i < n
    ensures !At(text, HEAD_BODY_SEPARATOR, i)
  {
    assert !At(text, SEPARATOR, i);
    if At(text, HEAD_BODY_SEPARATOR, i) {
      AtMeans(text, HEAD_BODY_SEPARATOR, i, 0);
      AtMeans(text, HEAD_BODY_SEPARATOR, i, 1);
    }
  }

  lemma IsBlankLine(line: string, data: string)
    ensures At(line + SEPARATOR + (SEPARATOR + data), HEAD_BODY_SEPARATOR, |line|)
  {
    var text := line + SEPARATOR + (SEPARATOR + data);
    assert text[|line|..|line| + 4] == HEAD_BODY_SEPARATOR;
  }

  // ---- messages at the edges of the condition ---------------------------------------

  const GREETING: Message := Message(Response("200 OK"), [Entry("A", "b")], "x")

  /** An ordinary message, and one whose status holds a CR alone. */
  lemma OrdinaryMessagesAreWellFormed()
    ensures IsWellFormed(GREETING) && IsWellFormed(GREETING.(first := Response("200\rOK"))) && Sorted(GREETING.headers)
  {
    hide Find;
    NoSeparatorWithoutLineFeed(FirstStr(Response("200 OK")));
    NoSeparatorWithoutLineFeed(FirstStr(Response("200\rOK")));
  }

  lemma NoSeparatorWithoutLineFeed(s: string)
    requires '\n' !in s
    ensures Find(s, SEPARATOR).None?
  {
    forall i: nat | i + |SEPARATOR| <= |s|
      ensures !At(s, SEPARATOR, i)
    {
      AtMeans(s, SEPARATOR, i, 1);
    }
  }

  /** A line of exactly 0x200 chars is one too long in the middle of a header and not at its
      end: the same entry is read back when it stands last, and is where reading stops when
      another follows. */
  lemma LongLineMattersUnlessLast(name: string, later: Entry)
    requires |name| == LINE_BUFFER - 2 && IsParseable(Entry(name, "")) && IsPrintable(later, true)
    ensures |PrintEntry(Entry(name, ""))| == LINE_BUFFER
    ensures ArePrintable([Entry(name, "")]) && !ArePrintable([Entry(name, ""), later])
  {
    var m := [Entry(name, ""), later];
    assert !IsPrintable(m[0], false);
  }
}
