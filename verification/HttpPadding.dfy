/**
 HTTP headers as other programs may write them: any blanks around names and values, and any
 white space between the words of a request line.
 */
module HttpPadding {
  import opened HttpHeaders
  import opened HttpMessages
  import opened HttpRoundTrips
  import opened Optional

  // ---- header lines -----------------------------------------------------------------

  /** A header line: a name and a value with blanks around each. */
  datatype PaddedLine = PaddedLine(beforeName: string, name: string, afterName: string,
                                   beforeValue: string, value: string, afterValue: string)
  {
    function Text(): string {
      beforeName + name + afterName + ":" + (beforeValue + value + afterValue)
    }

    function Entry(): Entry {
      HttpHeaders.Entry.Entry(name, value)
    }

    predicate IsProper() {
      && AllBlank(beforeName) && AllBlank(afterName) && AllBlank(beforeValue) && AllBlank(afterValue)
      && IsParseable(Entry()) && |Text()| < 0x200
    }
  }

  lemma BlanksHoldNot(s: string, c: char)
    requires AllBlank(s) && c != ' '
    ensures c !in s
  {
  }

  /** The line is parsed to exactly the name and the value. */
  lemma PaddedLineParses(line: PaddedLine)
    requires line.IsProper()
    ensures ParseEntry(line.Text()) == Some(line.Entry())
  {
    hide Trim, FindChar;
    var left, right := line.beforeName + line.name + line.afterName, line.beforeValue + line.value + line.afterValue;
    BlanksHoldNot(line.beforeName, ':');
    BlanksHoldNot(line.afterName, ':');
    FindCharAfter(left, ":" + right, ':');
    FindCharHere(":" + right, ':');
    assert line.Text() == left + (":" + right);
    assert line.Text()[..|left|] == left && line.Text()[|left| + 1..] == right;
    TrimOfPadded(line.beforeName, line.name, line.afterName);
    TrimOfPadded(line.beforeValue, line.value, line.afterValue);
  }

  lemma PaddedLineIsClean(line: PaddedLine)
    requires line.IsProper()
    ensures '\r' !in line.Text() && '\0' !in line.Text()
  {
    forall c | c == '\r' || c == '\0'
      ensures c !in line.Text()
    {
      BlanksHoldNot(line.beforeName, c);
      BlanksHoldNot(line.afterName, c);
      BlanksHoldNot(line.beforeValue, c);
      BlanksHoldNot(line.afterValue, c);
    }
  }

  function Joined(lines: seq<PaddedLine>): string
    requires lines != []
  {
    if |lines| == 1 then lines[0].Text() else lines[0].Text() + SEPARATOR + Joined(lines[1..])
  }

  /** The entries, inserted one after the other. */
  function Inserted(m: seq<Entry>, lines: seq<PaddedLine>): seq<Entry>
    decreases |lines|
  {
    if lines == [] then m else Inserted(Insert(m, lines[0].Entry()), lines[1..])
  }

  lemma {:induction false} PaddedLinesParse(lines: seq<PaddedLine>, m: seq<Entry>)
    requires lines != [] && forall i | 0 <= i < |lines| :: lines[i].IsProper()
    ensures ParseLines(Joined(lines), m) == Some(Inserted(m, lines))
    decreases |lines|
  {
    hide Insert, ParseEntry, CString, NextLine;
    var line := lines[0];
    assert line.IsProper();
    PaddedLineParses(line);
    PaddedLineIsClean(line);
    LinesUnfold(Joined(lines), m);
    if |lines| == 1 {
      LastLineSurvives(line.Text());
      assert lines[1..] == [];
    } else {
      LineSurvivesIff(line.Text(), Joined(lines[1..]));
      PaddedLinesParse(lines[1..], Insert(m, line.Entry()));
    }
  }

  /** A header is read as its first line, without the blanks around it, and exactly its names
      and values, whatever blanks are around them. */
  lemma PaddedHeaderParses(first: string, lines: seq<PaddedLine>)
    requires Find(first, SEPARATOR).None? && lines != [] && forall i | 0 <= i < |lines| :: lines[i].IsProper()
    ensures ParseHeader(first + SEPARATOR + Joined(lines)) == Some(Inserted([Entry("", Trim(first))], lines))
  {
    hide Find, Trim, ParseLines;
    var text := first + SEPARATOR + Joined(lines);
    FirstLineFound(first, Joined(lines));
    assert text[..|first|] == first && text[|first| + 2..] == Joined(lines);
    PaddedLinesParse(lines, [Entry("", Trim(first))]);
  }

  // ---- first lines ------------------------------------------------------------------

  /** The chars that separate words: those of isspace in the C locale. */
  lemma IsSpaceIff(c: char)
    ensures IsSpace(c) <==> c == ' ' || c == '\t' || c == '\n' || c as int == 0x0b || c as int == 0x0c || c == '\r'
  {
  }

  /** Any first word will do for the version of a response; what follows the first blank is
      the status, which must not be missing. */
  lemma ResponseLineReads(version: string, code: string, blank: string)
    requires version != "" && ' ' !in version
    ensures ReadFirst(Response(blank), version + " " + code) == (Response(code), code != "")
  {
    hide FindChar;
    var line := version + " " + code;
    assert line == version + (" " + code);
    FindCharAfter(version, " " + code, ' ');
    FindCharHere(" " + code, ' ');
    assert line[|version| + 1..] == code;
  }

  /** Without a blank, or with nothing before the first one, nothing is read. */
  lemma ResponseLineIsRefused(line: string, blank: string)
    requires line == "" || line[0] == ' ' || ' ' !in line
    ensures ReadFirst(Response(blank), line) == (Response(blank), false)
  {
    if line != "" && line[0] == ' ' {
      FindCharHere(line, ' ');
    }
  }

  predicate AllSpace(s: string) {
    forall i | 0 <= i < |s| :: IsSpace(s[i])
  }

  lemma {:induction false} SpacesAreSkipped(spaces: string, s: string)
    requires AllSpace(spaces)
    ensures SkipSpaces(spaces + s) == SkipSpaces(s) && NextWord(spaces + s) == NextWord(s)
  {
    if spaces == "" {
      assert spaces + s == s;
    } else {
      assert (spaces + s)[1..] == spaces[1..] + s;
      SpacesAreSkipped(spaces[1..], s);
    }
  }

  lemma SpacedWord(spaces: string, word: string, rest: string)
    requires AllSpace(spaces) && IsToken(word) && (rest == "" || IsSpace(rest[0]))
    ensures NextWord(spaces + (word + rest)) == Some((word, rest))
  {
    SpacesAreSkipped(spaces, word + rest);
    WordThenRest(word, rest);
  }

  /** A request line is its first two words, if there is a third; white space before and
      between them, and all that follows the third word, do not matter. */
  lemma RequestLineReads(a: string, name: string, b: string, uri: string, c: string, version: string, rest: string,
                         blank: FirstLine)
    requires blank.Request? && IsToken(name) && IsToken(uri) && IsToken(version)
    requires AllSpace(a) && AllSpace(b) && b != "" && AllSpace(c) && c != "" && (rest == "" || IsSpace(rest[0]))
    ensures ReadFirst(blank, a + (name + (b + (uri + (c + (version + rest)))))) == (Request(name, uri), true)
  {
    hide NextWord;
    SpacedWord(a, name, b + (uri + (c + (version + rest))));
    SpacedWord(b, uri, c + (version + rest));
    SpacedWord(c, version, rest);
  }

  /** Without a third word the line is refused, although both fields have been taken. */
  lemma RequestLineWithoutVersion(a: string, name: string, b: string, uri: string, c: string, blank: FirstLine)
    requires blank.Request? && IsToken(name) && IsToken(uri)
    requires AllSpace(a) && AllSpace(b) && b != "" && AllSpace(c)
    ensures ReadFirst(blank, a + (name + (b + (uri + c)))) == (Request(name, uri), false)
  {
    hide NextWord;
    SpacedWord(a, name, b + (uri + c));
    SpacedWord(b, uri, c);
    SpacesAreSkipped(c, "");
    assert c + "" == c;
    assert NextWord("").None? by { NoWord(); }
  }

  /** A request that is refused for that reason has kept all that was read by then: its words
      and its headers, but not its body. */
  lemma RefusedRequestKeepsParts(m: Message, text: string, i: nat, headers: seq<Entry>, name: string, b: string, uri: string)
    requires m.first.Request? && Find(text, HEAD_BODY_SEPARATOR) == Some(i) && ParseHeader(text[..i]) == Some(headers)
    requires IsToken(name) && IsToken(uri) && AllSpace(b) && b != ""
    requires ValuesOf(headers, "") != [] && ValuesOf(headers, "")[0] == name + (b + uri)
    ensures Unserialized(m, text) == (m.(first := Request(name, uri), headers := headers), false)
  {
    hide ParseHeader, ValuesOf, ReadFirst;
    RequestLineWithoutVersion("", name, b, uri, "", m.first);
    assert "" + (name + (b + (uri + ""))) == name + (b + uri);
  }

  /** Any other text is refused with nothing left of the headers of before. */
  lemma RefusedHeaderKeepsNothing(m: Message, text: string)
    requires match Find(text, HEAD_BODY_SEPARATOR)
             case None => true
             case Some(i) => ParseHeader(text[..i]).None?
    ensures Unserialized(m, text) == (m.(headers := []), false)
  {
    hide ParseHeader;
  }

  lemma NoWord()
    ensures NextWord("").None?
  {
  }

  // ---- two printed messages ---------------------------------------------------------

  /** A response as text, and a request. */
  lemma ExampleResponse()
    ensures Serialized(Message(Response("200 OK"), [Entry("A", "b")], "hi"))
         == "HTTP/1.0 200 OK\r\nA: b\r\n\r\nhi"
  {
    hide HeadersStr, PrintEntry;
    OneHeaderText("A", "b");
  }

  lemma ExampleRequest()
    ensures Serialized(Message(Request("GET", "/a"), [Entry("Host", "b")], ""))
         == "GET /a HTTP/1.0\r\nHost: b\r\n\r\n"
  {
    hide HeadersStr, PrintEntry;
    OneHeaderText("Host", "b");
  }

  lemma OneHeaderText(name: string, value: string)
    requires name != ""
    ensures HeadersStr([Entry(name, value)]) == name + ": " + value + "\r\n"
  {
    assert [Entry(name, value)][1..] == [];
  }
}
