/**
 HTTP message headers: an ordered multimap of names and values, its printed form, and the
 parser, which reads lines through a character stream with a buffer of 0x200 chars.
 */
module HttpHeaders {
  import opened Optional
  import opened Sequences

  /** One name and value.  The first line of a message is kept under the empty name. */
  datatype Entry = Entry(name: string, value: string)

  const SEPARATOR: string := "\r\n"
  const HEAD_BODY_SEPARATOR: string := "\r\n\r\n"
  const LINE_BUFFER: nat := 0x200

  // ---- strings ----------------------------------------------------------------------

  predicate At(s: string, pattern: string, i: nat) {
    i + |pattern| <= |s| && s[i..i + |pattern|] == pattern
  }

  /** s.find(pattern): the first place where it stands. */
  function Find(s: string, pattern: string, from: nat := 0): (pos: Option<nat>)
    ensures pos.Some? ==> from <= pos.value && At(s, pattern, pos.value)
    ensures forall i | from <= i && (pos.Some? ==> i < pos.value) :: !At(s, pattern, i)
    decreases |s| - from
  {
    if from + |pattern| > |s| then None
    else if At(s, pattern, from) then Some(from)
    else if from == |s| then None
    else Find(s, pattern, from + 1)
  }

  lemma AtMeans(s: string, pattern: string, i: nat, k: nat)
    requires i + |pattern| <= |s| && k < |pattern|
    ensures At(s, pattern, i) ==> s[i + k] == pattern[k]
  {
  }

  lemma FindIs(s: string, pattern: string, n: nat)
    requires At(s, pattern, n) && forall i | 0 <= i < n :: !At(s, pattern, i)
    ensures Find(s, pattern) == Some(n)
  {
  }

  /** The first place of `c`, or the length. */
  function FindChar(s: string, c: char): (pos: nat)
    ensures pos <= |s| && c !in s[..pos] && (pos < |s| ==> s[pos] == c)
  {
    if s == [] || s[0] == c then 0
    else
      assert s[..1 + FindChar(s[1..], c)] == [s[0]] + s[1..][..FindChar(s[1..], c)];
      1 + FindChar(s[1..], c)
  }

  lemma {:induction false} FindCharAfter(a: string, b: string, c: char)
    requires c !in a
    ensures FindChar(a + b, c) == |a| + FindChar(b, c)
  {
    if a == "" {
      assert a + b == b;
    } else {
      assert a[0] != c && (a + b)[1..] == a[1..] + b;
      FindCharAfter(a[1..], b, c);
    }
  }

  lemma {:induction false} FindCharWithin(a: string, b: string, c: char)
    requires c in a
    ensures FindChar(a + b, c) == FindChar(a, c) < |a|
  {
    if a[0] != c {
      assert (a + b)[1..] == a[1..] + b;
      FindCharWithin(a[1..], b, c);
    }
  }

  function TrimLeft(s: string): (r: string) {
    if s != [] && s[0] == ' ' then TrimLeft(s[1..]) else s
  }

  function TrimRight(s: string): (r: string) {
    if s != [] && s[|s| - 1] == ' ' then TrimRight(s[..|s| - 1]) else s
  }

  function Trim(s: string): string {
    TrimRight(TrimLeft(s))
  }

  predicate IsTrimmed(s: string) {
    s == [] || (s[0] != ' ' && s[|s| - 1] != ' ')
  }

  lemma {:induction false} TrimLeftEnds(s: string)
    ensures var r := TrimLeft(s);
            && (r != [] ==> r[0] != ' ' && s != [] && r[|r| - 1] == s[|s| - 1])
            && (r == s <==> s == [] || s[0] != ' ') && |r| <= |s|
  {
    if s != [] && s[0] == ' ' {
      TrimLeftEnds(s[1..]);
    }
  }

  lemma {:induction false} TrimRightEnds(s: string)
    ensures var r := TrimRight(s);
            && (r != [] ==> r[|r| - 1] != ' ' && s != [] && r[0] == s[0])
            && (r == s <==> s == [] || s[|s| - 1] != ' ') && |r| <= |s|
  {
    if s != [] && s[|s| - 1] == ' ' {
      TrimRightEnds(s[..|s| - 1]);
    }
  }

  /** Trimming always gives a trimmed string, and changes no other. */
  lemma TrimIs(s: string)
    ensures IsTrimmed(Trim(s)) && (Trim(s) == s <==> IsTrimmed(s))
  {
    TrimLeftEnds(s);
    TrimRightEnds(TrimLeft(s));
  }

  predicate AllBlank(s: string) {
    forall i | 0 <= i < |s| :: s[i] == ' '
  }

  /** `r` is the part of `s` from `i` to `j`, with only blanks before and behind it. */
  predicate IsSlice(s: string, i: nat, j: nat, r: string) {
    i <= j <= |s| && AllBlank(s[..i]) && AllBlank(s[j..]) && r == s[i..j]
  }

  function LeadingBlanks(s: string): nat {
    if s != [] && s[0] == ' ' then 1 + LeadingBlanks(s[1..]) else 0
  }

  function TrailingBlanks(s: string): nat {
    if s != [] && s[|s| - 1] == ' ' then 1 + TrailingBlanks(s[..|s| - 1]) else 0
  }

  lemma {:induction false} TrimLeftDrops(s: string)
    ensures IsSlice(s, LeadingBlanks(s), |s|, TrimLeft(s))
  {
    if s != [] && s[0] == ' ' {
      TrimLeftDrops(s[1..]);
      var i := LeadingBlanks(s[1..]);
      assert s[..i + 1] == [' '] + s[1..][..i];
      assert s[1..][i..|s| - 1] == s[i + 1..];
    }
  }

  lemma {:induction false} TrimRightDrops(s: string)
    ensures TrailingBlanks(s) <= |s| && IsSlice(s, 0, |s| - TrailingBlanks(s), TrimRight(s))
  {
    var n := |s|;
    if s != [] && s[n - 1] == ' ' {
      var shorter := s[..n - 1];
      TrimRightDrops(shorter);
      var j := n - 1 - TrailingBlanks(shorter);
      assert TrailingBlanks(s) == n - j && TrimRight(s) == TrimRight(shorter);
      SuffixSnoc(s, j);
      assert shorter[0..j] == s[0..j];
    } else {
      assert s[0..n] == s && s[n..] == [];
    }
  }

  /** Trimming takes blanks away at both ends and keeps all that is between. */
  lemma TrimIsSlice(s: string)
    ensures IsTrimmed(Trim(s)) && exists i: nat, j: nat :: IsSlice(s, i, j, Trim(s))
  {
    hide TrimLeft, TrimRight, IsTrimmed, LeadingBlanks, TrailingBlanks;
    var left, i := TrimLeft(s), LeadingBlanks(s);
    TrimIs(s);
    TrimLeftDrops(s);
    TrimRightDrops(left);
    var k := |left| - TrailingBlanks(left);
    SliceOfSlice(s, i, k, left, Trim(s));
  }

  lemma SliceOfSlice(s: string, i: nat, k: nat, left: string, r: string)
    requires IsSlice(s, i, |s|, left) && IsSlice(left, 0, k, r)
    ensures IsSlice(s, i, i + k, r)
  {
    assert left[k..] == s[i + k..] && left[0..k] == s[i..i + k];
  }

  lemma {:induction false} TrimLeftOfPadded(before: string, s: string)
    requires AllBlank(before) && (s == "" || s[0] != ' ')
    ensures TrimLeft(before + s) == s
  {
    if before == "" {
      assert before + s == s;
    } else {
      TrimLeftOfPadded(before[1..], s);
      assert (before + s)[1..] == before[1..] + s;
    }
  }

  lemma {:induction false} TrimRightOfPadded(s: string, after: string)
    requires AllBlank(after) && (s == "" || s[|s| - 1] != ' ')
    ensures TrimRight(s + after) == s
  {
    if after == "" {
      assert s + after == s;
    } else {
      TrimRightOfPadded(s, after[..|after| - 1]);
      assert (s + after)[..|s + after| - 1] == s + after[..|after| - 1];
    }
  }

  /** Blanks around a trimmed text, any number of them, are all that trimming takes away. */
  lemma TrimOfPadded(before: string, s: string, after: string)
    requires AllBlank(before) && AllBlank(after) && IsTrimmed(s)
    ensures Trim(before + s + after) == s
  {
    assert before + s + after == before + (s + after);
    if s == "" {
      assert before + (s + after) == (before + after) + "";
      TrimLeftOfPadded(before + after, "");
    } else {
      TrimLeftOfPadded(before, s + after);
      TrimRightOfPadded(s, after);
    }
  }

  lemma TrimIsShorter(s: string)
    ensures |Trim(s)| <= |s|
  {
    TrimLeftEnds(s);
    TrimRightEnds(TrimLeft(s));
  }

  /** A blank put before a value is trimmed off again. */
  lemma TrimAfterBlank(s: string)
    ensures Trim(" " + s) == Trim(s)
  {
  }

  // ---- the multimap -----------------------------------------------------------------

  /** std::string order. */
  predicate Less(a: string, b: string)
    decreases |a|
  {
    b != [] && (a == [] || a[0] < b[0] || (a[0] == b[0] && Less(a[1..], b[1..])))
  }

  lemma {:induction false} LessIsTransitive(a: string, b: string, c: string)
    requires Less(a, b) && Less(b, c)
    ensures Less(a, c)
    decreases |a|
  {
    if a != [] && a[0] == b[0] && b[0] == c[0] {
      LessIsTransitive(a[1..], b[1..], c[1..]);
    }
  }

  lemma {:induction false} LessIsIrreflexive(a: string)
    ensures !Less(a, a)
  {
    if a != [] {
      LessIsIrreflexive(a[1..]);
    }
  }

  ghost predicate DifferAt(a: string, b: string, k: nat) {
    k <= |a| && k < |b| && a[..k] == b[..k] && (k == |a| || a[k] < b[k])
  }

  /** The order is decided by the first char in which two strings differ; a string that ends
      there comes first. */
  lemma {:induction false} LessIff(a: string, b: string)
    ensures Less(a, b) <==> exists k: nat :: DifferAt(a, b, k)
    decreases |a|
  {
    if Less(a, b) {
      if a == [] || a[0] < b[0] {
        assert DifferAt(a, b, 0);
      } else {
        LessIff(a[1..], b[1..]);
        var k: nat :| DifferAt(a[1..], b[1..], k);
        assert a[..k + 1] == [a[0]] + a[1..][..k] && b[..k + 1] == [b[0]] + b[1..][..k];
        assert DifferAt(a, b, k + 1);
      }
    } else if exists k: nat :: DifferAt(a, b, k) {
      var k: nat :| DifferAt(a, b, k);
      if k > 0 {
        assert a[0] == a[..k][0] == b[..k][0] == b[0];
        assert a[1..][..k - 1] == a[..k][1..] && b[1..][..k - 1] == b[..k][1..];
        assert DifferAt(a[1..], b[1..], k - 1);
        LessIff(a[1..], b[1..]);
      }
    }
  }

  /** Names never go down, as in a std::multimap. */
  ghost predicate Sorted(m: seq<Entry>) {
    forall i, j | 0 <= i < j < |m| :: !Less(m[j].name, m[i].name)
  }

  /** multimap::insert: behind all the entries of the same name. */
  function Insert(m: seq<Entry>, e: Entry): seq<Entry> {
    if m == [] || Less(e.name, m[0].name) then [e] + m else [m[0]] + Insert(m[1..], e)
  }

  function ValuesOf(m: seq<Entry>, name: string): seq<string> {
    if m == [] then []
    else (if m[0].name == name then [m[0].value] else []) + ValuesOf(m[1..], name)
  }

  function Without(m: seq<Entry>, name: string): seq<Entry> {
    if m == [] then []
    else (if m[0].name == name then [] else [m[0]]) + Without(m[1..], name)
  }

  lemma {:induction false} InsertMembers(m: seq<Entry>, e: Entry)
    ensures multiset(Insert(m, e)) == multiset(m) + multiset{e}
  {
    if m == [] || Less(e.name, m[0].name) {
    } else {
      assert m == [m[0]] + m[1..];
      InsertMembers(m[1..], e);
    }
  }

  ghost predicate NoneBelow(m: seq<Entry>, name: string) {
    forall i | 0 <= i < |m| :: !Less(m[i].name, name)
  }

  lemma SortedCons(first: Entry, m: seq<Entry>)
    requires Sorted(m) && NoneBelow(m, first.name)
    ensures Sorted([first] + m)
  {
  }

  lemma {:induction false} InsertKeepsNoneBelow(m: seq<Entry>, e: Entry, name: string)
    requires NoneBelow(m, name) && !Less(e.name, name)
    ensures NoneBelow(Insert(m, e), name)
  {
    if m != [] && !Less(e.name, m[0].name) {
      InsertKeepsNoneBelow(m[1..], e, name);
    }
  }

  lemma {:induction false} InsertKeepsSorted(m: seq<Entry>, e: Entry)
    requires Sorted(m)
    ensures Sorted(Insert(m, e))
  {
    if m == [] {
    } else if Less(e.name, m[0].name) {
      forall i | 0 <= i < |m|
        ensures !Less(m[i].name, e.name)
      {
        if Less(m[i].name, e.name) {
          LessIsTransitive(m[i].name, e.name, m[0].name);
          LessIsIrreflexive(m[0].name);
        }
      }
      SortedCons(e, m);
    } else {
      InsertKeepsSorted(m[1..], e);
      InsertKeepsNoneBelow(m[1..], e, m[0].name);
      SortedCons(m[0], Insert(m[1..], e));
    }
  }

  lemma {:induction false} NoValuesAbove(m: seq<Entry>, e: Entry)
    requires Sorted(m) && m != [] && Less(e.name, m[0].name)
    ensures ValuesOf(m, e.name) == []
  {
    if m[0].name == e.name {
      LessIsIrreflexive(e.name);
    } else if |m| > 1 {
      if !Less(e.name, m[1].name) {
        assert !Less(m[1].name, m[0].name);
        LessIsTotal(m[1].name, e.name);
        if Less(m[1].name, e.name) {
          LessIsTransitive(m[1].name, e.name, m[0].name);
        }
      }
      NoValuesAbove(m[1..], e);
    }
  }

  lemma {:induction false} LessIsTotal(a: string, b: string)
    ensures Less(a, b) || Less(b, a) || a == b
    decreases |a|
  {
    if a != [] && b != [] && a[0] == b[0] {
      LessIsTotal(a[1..], b[1..]);
      assert a == [a[0]] + a[1..] && b == [b[0]] + b[1..];
    }
  }

  /** Values of one name keep the order in which they were inserted. */
  lemma {:induction false} InsertAppendsValue(m: seq<Entry>, e: Entry, name: string)
    requires Sorted(m)
    ensures ValuesOf(Insert(m, e), name) == ValuesOf(m, name) + if name == e.name then [e.value] else []
  {
    if m == [] {
    } else if Less(e.name, m[0].name) {
      assert ([e] + m)[1..] == m;
      if name == e.name {
        NoValuesAbove(m, e);
      }
    } else {
      InsertAppendsValue(m[1..], e, name);
      assert Insert(m, e)[1..] == Insert(m[1..], e);
    }
  }

  // ---- printing ---------------------------------------------------------------------

  /** One line of headers_str, without its separator. */
  function PrintEntry(e: Entry): string {
    e.name + (if e.name == "" then "" else ": ") + e.value
  }

  function HeadersStr(m: seq<Entry>): string {
    if m == [] then "" else PrintEntry(m[0]) + SEPARATOR + HeadersStr(m[1..])
  }

  /** The printed lines with separators between them only. */
  function Lines(m: seq<Entry>): string
    requires m != []
  {
    if |m| == 1 then PrintEntry(m[0]) else PrintEntry(m[0]) + SEPARATOR + Lines(m[1..])
  }

  lemma {:induction false} HeadersStrIsLines(m: seq<Entry>)
    requires m != []
    ensures HeadersStr(m) == Lines(m) + SEPARATOR
  {
    if |m| == 1 {
      assert HeadersStr(m[1..]) == "";
      assert PrintEntry(m[0]) + SEPARATOR + "" == PrintEntry(m[0]) + SEPARATOR;
    } else {
      HeadersStrIsLines(m[1..]);
      var line := PrintEntry(m[0]) + SEPARATOR;
      assert line + (Lines(m[1..]) + SEPARATOR) == (line + Lines(m[1..])) + SEPARATOR;
    }
  }

  // ---- parsing ----------------------------------------------------------------------

  /** A line as getline and get take it from the rest of the stream; `more` is the state of
      the stream afterwards. */
  datatype StreamLine = StreamLine(text: string, after: string, more: bool)

  /** A line ends at CR or at the end.  A longer line than the buffer holds, the end of the
      stream, or nothing to read behind CR leave the stream in a failed state. */
  function NextLine(rest: string): (line: StreamLine)
    ensures line.more ==> |line.after| < |rest|
  {
    var n := FindChar(rest, '\r');
    if n >= LINE_BUFFER then StreamLine(rest[..LINE_BUFFER - 1], rest[LINE_BUFFER - 1..], false)
    else if n == |rest| then StreamLine(rest, "", false)
    else if n + 1 == |rest| then StreamLine(rest[..n], "", false)
    else StreamLine(rest[..n], rest[n + 2..], true)
  }

  /** std::string(const char*) ends at the first NUL. */
  function CString(buffer: string): string {
    buffer[..FindChar(buffer, '\0')]
  }

  /** Name and value of a line, or None where parse_header throws. */
  function ParseEntry(s: string): Option<Entry> {
    var i := FindChar(s, ':');
    if i == |s| then None else Some(Entry(Trim(s[..i]), Trim(s[i + 1..])))
  }

  function ParseLines(rest: string, m: seq<Entry>): Option<seq<Entry>>
    decreases |rest|
  {
    var line := NextLine(rest);
    match ParseEntry(CString(line.text))
    case None => None
    case Some(e) => if line.more then ParseLines(line.after, Insert(m, e)) else Some(Insert(m, e))
  }

  /** parse_header: None is bad_request_error. */
  function ParseHeader(header: string): Option<seq<Entry>> {
    match Find(header, SEPARATOR)
    case None => None
    case Some(i) => ParseLines(header[i + |SEPARATOR|..], [Entry("", Trim(header[..i]))])
  }

  /** A std::stringstream that is read from. */
  class StringStream {
    const text: string
    var pos: nat
    var eofbit: bool
    var failbit: bool

    constructor (text: string)
      ensures this.text == text && pos == 0 && Good()
    {
      this.text, pos, eofbit, failbit := text, 0, false, false;
    }

    predicate Good()
      reads this
    {
      !eofbit && !failbit
    }

    /** istream::getline with a buffer of `size` chars, which also holds a NUL. */
    method GetLine(size: nat, delim: char) returns (line: string)
      requires size > 0 && pos <= |text| && Good()
      modifies this
      ensures var rest := text[old(pos)..];
              var n := FindChar(rest, delim);
              && pos <= |text|
              && line == (if n < size then rest[..n] else rest[..size - 1])
              && pos == (if n >= size then old(pos) + size - 1 else if n == |rest| then |text| else old(pos) + n + 1)
              && eofbit == (n < size && n == |rest|)
              && failbit == (n >= size || rest == "")
    {
      ghost var rest := text[pos..];
      ghost var n := FindChar(rest, delim);
      line := "";
      ghost var from := pos;
      while pos < |text| && text[pos] != delim && |line| < size - 1
        invariant from <= pos <= |text| && |line| == pos - from <= n && line == rest[..|line|]
        invariant |line| <= size - 1 && pos == from + |line|
        invariant pos < |text| ==> text[pos] == rest[|line|]
        invariant Good()
        decreases |text| - pos
      {
        assert |line| != n;
        line := line + [text[pos]];
        pos := pos + 1;
      }
      if pos == |text| {
        eofbit := true;
        failbit := line == "";
      } else if text[pos] == delim {
        pos := pos + 1;
      } else {
        failbit := true;
      }
    }

    /** istream::get, whose result the caller ignores. */
    method Get()
      requires pos <= |text|
      modifies this
      ensures pos <= |text|
      ensures old(Good()) && old(pos) < |text| ==> pos == old(pos) + 1 && Good()
      ensures !(old(Good()) && old(pos) < |text|) ==> failbit
    {
      if !Good() {
        failbit := true;
      } else if pos == |text| {
        eofbit, failbit := true, true;
      } else {
        pos := pos + 1;
      }
    }
  }

  lemma LinesUnfold(rest: string, m: seq<Entry>)
    ensures var line := NextLine(rest);
            var e := ParseEntry(CString(line.text));
            ParseLines(rest, m) ==
            if e.None? then None
            else if line.more then ParseLines(line.after, Insert(m, e.value)) else Some(Insert(m, e.value))
  {
  }

  /** One turn of the loop: getline, get, and the entry that the line holds. */
  method ReadEntry(ss: StringStream) returns (e: Option<Entry>)
    requires ss.pos <= |ss.text| && ss.Good()
    modifies ss
    ensures var line := NextLine(ss.text[old(ss.pos)..]);
            && ss.pos <= |ss.text| && e == ParseEntry(CString(line.text)) && ss.failbit == !line.more
            && (line.more ==> ss.Good() && ss.text[ss.pos..] == line.after)
  {
    hide ParseEntry, CString, FindChar;
    ghost var rest := ss.text[ss.pos..];
    ghost var line := NextLine(rest);
    var buf := ss.GetLine(LINE_BUFFER, '\r');
    ss.Get();
    assert buf == line.text;
    assert line.more ==> ss.text[ss.pos..] == line.after;
    e := ParseEntry(CString(buf));
  }

  method ParseHeaderText(header: string) returns (parsed: Option<seq<Entry>>)
    ensures parsed == ParseHeader(header)
  {
    hide ParseEntry, CString, Insert, NextLine, Find, Trim;
    var i := Find(header, SEPARATOR);
    if i.None? {
      return None;
    }
    var m := [Entry("", Trim(header[..i.value]))];
    var ss := new StringStream(header[i.value + |SEPARATOR|..]);
    ghost var result := ParseLines(ss.text, m);
    assert ss.text[0..] == ss.text;
    var more := true;
    while more
      invariant ss.pos <= |ss.text| && (more ==> ss.Good())
      invariant result == if more then ParseLines(ss.text[ss.pos..], m) else Some(m)
      decreases more, |ss.text| - ss.pos
    {
      LinesUnfold(ss.text[ss.pos..], m);
      var e := ReadEntry(ss);
      if e.None? {
        return None;
      }
      m := Insert(m, e.value);
      more := !ss.failbit;
    }
    return Some(m);
  }
}
