/**
 HTTP requests and responses: printing, reading back, and when the two fit together.
 */
module HttpMessages {
  import opened HttpHeaders
  import opened Optional

  const VERSION: string := "HTTP/1.0"

  /** The part of a message in which requests and responses differ. */
  datatype FirstLine = Response(statusCode: string) | Request(name: string, uri: string)

  datatype Message = Message(first: FirstLine, headers: seq<Entry>, data: string)

  /** serialize_first_str, without its separator. */
  function FirstStr(f: FirstLine): string {
    match f
    case Response(code) => VERSION + " " + code
    case Request(name, uri) => name + " " + uri + " " + VERSION
  }

  predicate IsSpace(c: char) {
    c == ' ' || '\t' <= c <= '\r'
  }

  function SkipSpaces(s: string): (r: string)
    ensures |r| <= |s| && (r != [] ==> !IsSpace(r[0]))
  {
    if s != [] && IsSpace(s[0]) then SkipSpaces(s[1..]) else s
  }

  function TokenEnd(s: string): (n: nat)
    ensures n <= |s| && (forall i | 0 <= i < n :: !IsSpace(s[i])) && (n < |s| ==> IsSpace(s[n]))
  {
    if s == [] || IsSpace(s[0]) then 0 else 1 + TokenEnd(s[1..])
  }

  /** `ss >> skipws >> word`: None where the stream fails. */
  function NextWord(s: string): (word: Option<(string, string)>) {
    var t := SkipSpaces(s);
    if t == [] then None else Some((t[..TokenEnd(t)], t[TokenEnd(t)..]))
  }

  /** unserialize_first_str: the fields afterwards, and whether it returned.  The fields read
      before an exception keep what was read. */
  function ReadFirst(f: FirstLine, s: string): (FirstLine, bool) {
    match f
    case Response(_) =>
      var pos := FindChar(s, ' ');
      if pos == |s| || pos == 0 then (f, false) else (Response(s[pos + 1..]), s[pos + 1..] != "")
    case Request(_, _) =>
      var name := NextWord(s);
      if name.None? then (f, false)
      else
        var uri := NextWord(name.value.1);
        if uri.None? then (f.(name := name.value.0), false)
        else (Request(name.value.0, uri.value.0), NextWord(uri.value.1).Some?)
  }

  function Serialized(m: Message): string {
    FirstStr(m.first) + SEPARATOR + HeadersStr(m.headers) + SEPARATOR + m.data
  }

  /** unserialize: the message object afterwards, and whether it returned. */
  function Unserialized(m: Message, text: string): (Message, bool) {
    var i := Find(text, HEAD_BODY_SEPARATOR);
    if i.None? then (m.(headers := []), false)
    else
      var parsed := ParseHeader(text[..i.value]);
      if parsed.None? || ValuesOf(parsed.value, "") == [] then (m.(headers := []), false)
      else
        var (first, ok) := ReadFirst(m.first, ValuesOf(parsed.value, "")[0]);
        if !ok then (m.(first := first, headers := parsed.value), false)
        else (Message(first, parsed.value, text[i.value + |HEAD_BODY_SEPARATOR|..]), true)
  }

  class HttpMessage {
    var first: FirstLine
    var headers: seq<Entry>
    var data: string

    constructor (first: FirstLine, data: string)
      ensures Value() == Message(first, [], data) && Valid()
    {
      this.first, headers, this.data := first, [], data;
    }

    function Value(): Message
      reads this
    {
      Message(first, headers, data)
    }

    ghost predicate Valid()
      reads this
    {
      Sorted(headers)
    }

    method AddHeader(name: string, value: string)
      requires Valid()
      modifies this`headers
      ensures Valid() && headers == Insert(old(headers), Entry(name, value))
    {
      InsertKeepsSorted(headers, Entry(name, value));
      headers := Insert(headers, Entry(name, value));
    }

    method RemoveHeader(name: string)
      requires Valid()
      modifies this`headers
      ensures Valid() && headers == Without(old(headers), name)
    {
      WithoutKeepsSorted(headers, name);
      headers := Without(headers, name);
    }

    /** The first value, or None where the source throws. */
    method GetHeader(name: string) returns (value: Option<string>)
      ensures value == if ValuesOf(headers, name) == [] then None else Some(ValuesOf(headers, name)[0])
    {
      var i := 0;
      assert headers[0..] == headers;
      while i < |headers|
        invariant 0 <= i <= |headers| && ValuesOf(headers[i..], name) == ValuesOf(headers, name)
      {
        assert headers[i..][1..] == headers[i + 1..];
        if headers[i].name == name {
          return Some(headers[i].value);
        }
        i := i + 1;
      }
      return None;
    }

    method HeadersText() returns (s: string)
      ensures s == HeadersStr(headers)
    {
      s := "";
      var i := 0;
      assert headers[0..] == headers;
      while i < |headers|
        invariant 0 <= i <= |headers| && s + HeadersStr(headers[i..]) == HeadersStr(headers)
      {
        assert headers[i..][1..] == headers[i + 1..];
        ghost var before := s;
        s := s + headers[i].name + (if headers[i].name == "" then "" else ": ") + headers[i].value + SEPARATOR;
        assert s == before + (PrintEntry(headers[i]) + SEPARATOR);
        i := i + 1;
      }
    }

    method Serialize() returns (s: string)
      ensures s == Serialized(Value())
    {
      var lines := HeadersText();
      return FirstStr(first) + SEPARATOR + lines + SEPARATOR + data;
    }

    /** Whatever it throws, the object stays one that headers can be added to. */
    method Unserialize(text: string) returns (ok: bool)
      modifies this
      ensures Valid() && (Value(), ok) == Unserialized(old(Value()), text)
    {
      headers := [];
      var i := Find(text, HEAD_BODY_SEPARATOR);
      if i.None? {
        return false;
      }
      var parsed := ParseHeaderText(text[..i.value]);
      if parsed.None? {
        return false;
      }
      ParsedHasFirst(text[..i.value]);
      ParsedIsSorted(text[..i.value]);
      headers := parsed.value;
      var line := GetHeader("");
      first, ok := ReadFirst(first, line.value).0, ReadFirst(first, line.value).1;
      if !ok {
        return;
      }
      data := text[i.value + |HEAD_BODY_SEPARATOR|..];
    }
  }

  lemma {:induction false} WithoutKeepsSorted(m: seq<Entry>, name: string)
    requires Sorted(m)
    ensures Sorted(Without(m, name)) && forall e | e in Without(m, name) :: e in m && e.name != name
  {
    if m != [] {
      WithoutKeepsSorted(m[1..], name);
      var rest := Without(m[1..], name);
      forall i | 0 <= i < |rest|
        ensures !Less(rest[i].name, m[0].name)
      {
        assert rest[i] in m[1..];
      }
      if m[0].name != name {
        SortedCons(m[0], rest);
      }
    }
  }

  /** Removing a name leaves the values of all other names, and their order, as they were. */
  lemma {:induction false} WithoutLeavesOthers(m: seq<Entry>, name: string, other: string)
    ensures ValuesOf(Without(m, name), other) == if other == name then [] else ValuesOf(m, other)
    ensures |Without(m, name)| == |m| - |ValuesOf(m, name)|
  {
    if m != [] {
      WithoutLeavesOthers(m[1..], name, other);
      var rest := Without(m[1..], name);
      if m[0].name == name {
        assert Without(m, name) == rest;
        assert ValuesOf(m, name) == [m[0].value] + ValuesOf(m[1..], name);
      } else {
        assert Without(m, name) == [m[0]] + rest && ([m[0]] + rest)[1..] == rest;
        assert ValuesOf(m, name) == ValuesOf(m[1..], name);
      }
    }
  }

  /** The first line is in every parsed header, in front. */
  lemma ParsedHasFirst(header: string)
    requires ParseHeader(header).Some?
    ensures var m := ParseHeader(header).value; m != [] && m[0] == Entry("", Trim(header[..Find(header, SEPARATOR).value]))
    ensures var m := ParseHeader(header).value; ValuesOf(m, "") != [] && ValuesOf(m, "")[0] == m[0].value
  {
    var i := Find(header, SEPARATOR).value;
    LinesKeepFirst(header[i + |SEPARATOR|..], [Entry("", Trim(header[..i]))]);
  }

  lemma ParsedIsSorted(header: string)
    requires ParseHeader(header).Some?
    ensures Sorted(ParseHeader(header).value)
  {
    var i := Find(header, SEPARATOR).value;
    LinesKeepSorted(header[i + |SEPARATOR|..], [Entry("", Trim(header[..i]))]);
  }

  lemma {:induction false} LinesKeepSorted(rest: string, m: seq<Entry>)
    requires Sorted(m) && ParseLines(rest, m).Some?
    ensures Sorted(ParseLines(rest, m).value)
    decreases |rest|
  {
    hide NextLine, CString, ParseEntry;
    var line := NextLine(rest);
    var e := ParseEntry(CString(line.text)).value;
    InsertKeepsSorted(m, e);
    if line.more {
      LinesKeepSorted(line.after, Insert(m, e));
    }
  }

  lemma {:induction false} LinesKeepFirst(rest: string, m: seq<Entry>)
    requires m != [] && m[0].name == "" && ParseLines(rest, m).Some?
    ensures ParseLines(rest, m).value != [] && ParseLines(rest, m).value[0] == m[0]
    decreases |rest|
  {
    var line := NextLine(rest);
    var e := ParseEntry(CString(line.text)).value;
    assert Insert(m, e)[0] == m[0];
    if line.more {
      LinesKeepFirst(line.after, Insert(m, e));
    }
  }

  // ---- reading back: one line -------------------------------------------------------

  /** A printed line reaches the parser unchanged exactly when it is shorter than the buffer
      and holds neither CR nor NUL. */
  lemma LineSurvivesIff(line: string, rest: string)
    ensures CString(NextLine(line + SEPARATOR + rest).text) == line
            <==> |line| < 0x200 && '\r' !in line && '\0' !in line
    ensures |line| < LINE_BUFFER && '\r' !in line ==> NextLine(line + SEPARATOR + rest) == StreamLine(line, rest, true)
  {
    var text := line + SEPARATOR + rest;
    var tail := SEPARATOR + rest;
    assert text == line + tail && tail[0] == '\r';
    CStringIs(NextLine(text).text);
    if '\r' in line {
      FindCharWithin(line, tail, '\r');
    } else {
      FindCharAfter(line, tail, '\r');
      assert text[..|line|] == line && text[|line| + 2..] == rest;
    }
  }

  lemma CStringIs(s: string)
    ensures CString(s) == s <==> '\0' !in s
    ensures |CString(s)| <= |s|
  {
  }

  lemma LastLineSurvives(line: string)
    requires |line| < LINE_BUFFER && '\r' !in line && '\0' !in line
    ensures NextLine(line).text == line && !NextLine(line).more && CString(line) == line
  {
  }

  /** A printed entry is parsed back exactly when its name has no colon and neither name nor
      value begins or ends with a blank. */
  lemma EntryReadsBackIff(e: Entry)
    requires e.name != ""
    ensures ParseEntry(PrintEntry(e)) == Some(e) <==> ':' !in e.name && IsTrimmed(e.name) && IsTrimmed(e.value)
  {
    hide FindChar, Trim;
    var s, tail := PrintEntry(e), ": " + e.value;
    assert s == e.name + tail;
    if ':' in e.name {
      FindCharWithin(e.name, tail, ':');
      TrimIsShorter(s[..FindChar(s, ':')]);
    } else {
      FindCharAfter(e.name, tail, ':');
      FindCharHere(tail, ':');
      assert s[..|e.name|] == e.name && s[|e.name| + 1..] == " " + e.value;
      TrimAfterBlank(e.value);
      TrimIs(e.name);
      TrimIs(e.value);
    }
  }

  // ---- reading back: the first line -------------------------------------------------

  predicate IsToken(s: string) {
    s != "" && forall i | 0 <= i < |s| :: !IsSpace(s[i])
  }

  /** What a first line must be to survive. */
  predicate IsReadable(f: FirstLine) {
    match f
    case Response(code) => code != "" && code[|code| - 1] != ' '
    case Request(name, uri) => IsToken(name) && IsToken(uri)
  }

  lemma SkipsNothing(s: string)
    requires s == "" || !IsSpace(s[0])
    ensures SkipSpaces(s) == s
  {
  }

  lemma {:induction false} TokenEndOf(word: string, rest: string)
    requires (forall i | 0 <= i < |word| :: !IsSpace(word[i])) && (rest == "" || IsSpace(rest[0]))
    ensures TokenEnd(word + rest) == |word|
  {
    if word == "" {
      assert word + rest == rest;
    } else {
      assert (word + rest)[1..] == word[1..] + rest;
      TokenEndOf(word[1..], rest);
    }
  }

  lemma WordThenRest(word: string, rest: string)
    requires IsToken(word) && (rest == "" || IsSpace(rest[0]))
    ensures NextWord(word + rest) == Some((word, rest))
  {
    var s := word + rest;
    assert s[0] == word[0];
    SkipsNothing(s);
    TokenEndOf(word, rest);
    assert s[..|word|] == word && s[|word|..] == rest;
  }

  lemma WordsAreTokens(s: string)
    ensures NextWord(s).Some? ==> IsToken(NextWord(s).value.0)
  {
  }

  lemma BlankThen(s: string)
    ensures NextWord(" " + s) == NextWord(s)
  {
  }

  /** A response line reads back exactly when its status is neither empty nor followed by
      blanks, which trimming takes away; a request line, exactly when its name and its uri
      are single words. */
  lemma ResponseReadsBackIff(code: string, blank: string)
    ensures ReadFirst(Response(blank), Trim(FirstStr(Response(code)))) == (Response(code), true) <==> IsReadable(Response(code))
  {
    hide FindChar, TrimRight;
    var s, tail := FirstStr(Response(code)), " " + code;
    var t := TrimRight(s);
    assert s == VERSION + tail && s[0] == 'H' && |s| == 9 + |code|;
    assert Trim(s) == t;
    TrimRightEnds(s);
    TrimRightIsPrefix(s);
    if IsReadable(Response(code)) {
      assert s[|s| - 1] == code[|code| - 1] && t == s;
      FindCharAfter(VERSION, tail, ' ');
      FindCharHere(tail, ' ');
      assert FindChar(t, ' ') == 8 && t[9..] == code;
    } else {
      assert s[|s| - 1] == tail[|tail| - 1] == ' ';
      assert |t| < |s|;
      StatusComesAfterVersion(VERSION, s, t);
      var pos := FindChar(t, ' ');
      if pos < |t| {
        assert |t[pos + 1..]| < |code|;
      }
    }
  }

  lemma FindCharHere(s: string, c: char)
    requires s != "" && s[0] == c
    ensures FindChar(s, c) == 0
  {
  }

  /** What is left of a response line after cutting blanks holds less than the status. */
  lemma StatusComesAfterVersion(version: string, s: string, t: string)
    requires ' ' !in version && version <= s && t <= s
    ensures FindChar(t, ' ') == |t| || FindChar(t, ' ') >= |version|
  {
  }

  lemma {:induction false} TrimRightIsPrefix(s: string)
    ensures TrimRight(s) <= s
  {
    if s != [] && s[|s| - 1] == ' ' {
      TrimRightIsPrefix(s[..|s| - 1]);
    }
  }

  lemma ThreeWordsReadBack(blank: FirstLine, a: string, b: string, c: string)
    requires blank.Request? && IsToken(a) && IsToken(b) && IsToken(c)
    ensures ReadFirst(blank, a + (" " + (b + (" " + c)))) == (Request(a, b), true)
  {
    WordThenRest(a, " " + (b + (" " + c)));
    BlankThen(b + (" " + c));
    WordThenRest(b, " " + c);
    BlankThen(c);
    assert c + "" == c;
    WordThenRest(c, "");
  }

  lemma RequestReadsBack(name: string, uri: string, blank: FirstLine)
    requires blank.Request? && IsReadable(Request(name, uri))
    ensures Trim(FirstStr(Request(name, uri))) == FirstStr(Request(name, uri))
    ensures ReadFirst(blank, FirstStr(Request(name, uri))) == (Request(name, uri), true)
  {
    hide NextWord, ReadFirst;
    var s := FirstStr(Request(name, uri));
    assert s == name + (" " + (uri + (" " + VERSION)));
    assert s[0] == name[0] && s[|s| - 1] == VERSION[7];
    TrimIs(s);
    ThreeWordsReadBack(blank, name, uri, VERSION);
  }

  lemma RequestReadsBackIff(name: string, uri: string, blank: FirstLine)
    requires blank.Request?
    ensures ReadFirst(blank, Trim(FirstStr(Request(name, uri)))) == (Request(name, uri), true) <==> IsReadable(Request(name, uri))
  {
    var s := Trim(FirstStr(Request(name, uri)));
    if IsReadable(Request(name, uri)) {
      RequestReadsBack(name, uri, blank);
    } else {
      WordsAreTokens(s);
      if NextWord(s).Some? {
        WordsAreTokens(NextWord(s).value.1);
      }
    }
  }
}
