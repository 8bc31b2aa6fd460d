/**
 Header blocks as text, one `name: value` to a line, and what reading them back gives. A header map is a
 multimap that keeps the order of each name's values; it is written in some listing of its headers.
 */
module Headers {
  import opened Bytes
  import opened Common
  import opened Texts

  const MAX_NAME: nat := 65_535

  datatype Header = Header(name: Text, value: Text)

  // ----- what a header map can hold -----

  predicate IsLetter(b: Byte) { 97 <= b <= 122 }

  predicate IsCapital(b: Byte) { 65 <= b <= 90 }

  /** A token character, as section 5.6.2 of RFC 9110 lists them. */
  predicate IsToken(b: Byte) {
    || IsLetter(b) || IsCapital(b) || 48 <= b <= 57
    || b == 33 || 35 <= b <= 39 || b == 42 || b == 43 || b == 45 || b == 46 || 94 <= b <= 96 || b == 124 || b == 126
  }

  function Lower(b: Byte): Byte {
    if IsCapital(b) then b + 32 else b
  }

  function Lowered(s: Text): Text {
    seq(|s|, i requires 0 <= i < |s| => Lower(s[i]))
  }

  function ReadName(s: Text): Option<Text> {
    if 0 < |s| <= MAX_NAME && forall i :: 0 <= i < |s| ==> IsToken(s[i]) then Some(Lowered(s)) else None
  }

  /** The names a header map holds are those it reads as themselves. */
  predicate IsName(name: Text) {
    ReadName(name) == Some(name)
  }

  predicate IsValue(value: Text) {
    forall i :: 0 <= i < |value| ==> value[i] == 9 || (32 <= value[i] && value[i] != 127)
  }

  predicate Holdable(h: Header) {
    IsName(h.name) && IsValue(h.value)
  }

  /** Adds a header behind the others of its name. */
  function Appended(headers: map<Text, seq<Text>>, h: Header): map<Text, seq<Text>> {
    headers[h.name := (if h.name in headers then headers[h.name] else []) + [h.value]]
  }

  function Multimap(listing: seq<Header>): map<Text, seq<Text>>
    decreases |listing|
  {
    if listing == [] then map[]
    else Appended(Multimap(listing[..|listing| - 1]), listing[|listing| - 1])
  }

  // ----- reading -----

  predicate IsSpace(b: Byte) { b == 32 || b == 9 || b == 10 || b == 12 || b == 13 }

  function TrimStart(s: Text): Text {
    if s != [] && IsSpace(s[0]) then TrimStart(s[1..]) else s
  }

  function TrimEnd(s: Text): Text {
    if s != [] && IsSpace(s[|s| - 1]) then TrimEnd(s[..|s| - 1]) else s
  }

  function Trim(s: Text): Text { TrimEnd(TrimStart(s)) }

  datatype Problem = NoColon | BadName | BadValue

  datatype Line = Blank | Read(header: Header) | Bad(problem: Problem)

  datatype BadLine = BadLine(number: nat, problem: Problem)

  function ReadLine(raw: Text): Line {
    var line := if raw != [] && raw[|raw| - 1] == CR then raw[..|raw| - 1] else raw;
    if line == [] then Blank
    else
      var colon := FirstOf(COLON, line);
      if colon == |line| then Bad(NoColon)
      else
        match ReadName(Trim(line[..colon]))
        case None => Bad(BadName)
        case Some(name) =>
          var value := Trim(line[colon + 1..]);
          if IsValue(value) then Read(Header(name, value)) else Bad(BadValue)
  }

  /** What lines numbered from `number` on hold, or the first of them that is no header. */
  function ReadLines(lines: seq<Text>, number: nat): Result<seq<Header>, BadLine> {
    if lines == [] then Ok([])
    else
      match ReadLine(lines[0])
      case Bad(problem) => Err(BadLine(number, problem))
      case Blank => ReadLines(lines[1..], number + 1)
      case Read(h) => Behind([h], ReadLines(lines[1..], number + 1))
  }

  function Behind(first: seq<Header>, rest: Result<seq<Header>, BadLine>): Result<seq<Header>, BadLine> {
    match rest
    case Ok(headers) => Ok(first + headers)
    case Err(bad) => Err(bad)
  }

  function Decoded(block: Text): Result<seq<Header>, BadLine> {
    ReadLines(Cut(LF, block), 1)
  }

  /** The loop that reads a block into a header map, line by line. */
  method DecodeHeaders(block: Text) returns (headers: Result<map<Text, seq<Text>>, BadLine>)
    ensures headers == match Decoded(block) case Ok(listing) => Ok(Multimap(listing)) case Err(bad) => Err(bad)
  {
    hide Cut, ReadLine, Appended;
    var lines := Cut(LF, block);
    var found := map[];
    ghost var listing: seq<Header> := [];
    assert lines[0..] == lines;
    LeadingNothing(ReadLines(lines, 1));
    for index := 0 to |lines|
      invariant found == Multimap(listing)
      invariant Decoded(block) == Behind(listing, ReadLines(lines[index..], index + 1))
    {
      assert lines[index..][1..] == lines[index + 1..];
      match ReadLine(lines[index]) {
        case Blank =>
        case Bad(problem) => return Err(BadLine(index + 1, problem));
        case Read(h) =>
          BehindOneMore(listing, h, ReadLines(lines[index + 1..], index + 2));
          assert (listing + [h])[..|listing|] == listing;
          found := Appended(found, h);
          listing := listing + [h];
      }
    }
    assert lines[|lines|..] == [];
    assert listing + [] == listing;
    headers := Ok(found);
  }

  lemma LeadingNothing(rest: Result<seq<Header>, BadLine>)
    ensures Behind([], rest) == rest
  {
    assert rest.Ok? ==> [] + rest.value == rest.value;
  }

  lemma BehindOneMore(first: seq<Header>, h: Header, rest: Result<seq<Header>, BadLine>)
    ensures Behind(first, Behind([h], rest)) == Behind(first + [h], rest)
  {
    assert rest.Ok? ==> first + ([h] + rest.value) == first + [h] + rest.value;
  }

  /** A block is refused for a line exactly when that line is no header and every line before it reads. */
  lemma {:induction false} TheFirstBadLineIsReported(lines: seq<Text>, number: nat, k: nat, problem: Problem)
    ensures ReadLines(lines, number) == Err(BadLine(number + k, problem))
      <==> (&& k < |lines|
            && ReadLine(lines[k]) == Bad(problem)
            && forall j :: 0 <= j < k ==> !ReadLine(lines[j]).Bad?)
    decreases |lines|
  {
    hide ReadLine;
    if lines != [] && !ReadLine(lines[0]).Bad? {
      if k > 0 {
        TheFirstBadLineIsReported(lines[1..], number + 1, k - 1, problem);
        assert forall j :: 0 < j < |lines| ==> lines[j] == lines[1..][j - 1];
      } else {
        NumbersRise(lines[1..], number + 1);
      }
    }
  }

  lemma {:induction false} NumbersRise(lines: seq<Text>, number: nat)
    ensures ReadLines(lines, number).Err? ==> ReadLines(lines, number).error.number >= number
    decreases |lines|
  {
    hide ReadLine;
    if lines != [] {
      NumbersRise(lines[1..], number + 1);
    }
  }

  // ----- writing -----

  datatype Ending = Lf | CrLf {
    function Text(): Text {
      match this
      case Lf => [LF]
      case CrLf => [CR, LF]
    }
  }

  /** What a block may hold line by line: a header or nothing, behind either ending. */
  datatype Item = Gap(ending: Ending) | Entry(header: Header, ending: Ending)

  function LineOf(item: Item): Text {
    match item
    case Gap(_) => []
    case Entry(h, _) => h.name + [COLON, SPACE] + h.value
  }

  function Written(items: seq<Item>): Text {
    if items == [] then [] else LineOf(items[0]) + items[0].ending.Text() + Written(items[1..])
  }

  function Trimmed(h: Header): Header { Header(h.name, Trim(h.value)) }

  /** The headers a block holds, as they are read: without the space around their values. */
  function HeadersOf(items: seq<Item>): seq<Header> {
    if items == [] then []
    else (if items[0].Entry? then [Trimmed(items[0].header)] else []) + HeadersOf(items[1..])
  }

  /** Writes each header on a line of its own. */
  method EncodeHeaders(listing: seq<Header>) returns (block: Text)
    ensures block == Written(Lines(listing))
  {
    hide Written, Lines;
    block := [];
    assert listing[0..] == listing;
    for i := 0 to |listing|
      invariant block + Written(Lines(listing[i..])) == Written(Lines(listing))
    {
      ghost var before := block;
      block := block + listing[i].name;
      block := block + [COLON, SPACE];
      block := block + listing[i].value;
      block := block + [CR, LF];
      OneLineMore(before, listing, i, block);
    }
    NothingMore(block, listing);
  }

  lemma NothingMore(block: Text, listing: seq<Header>)
    ensures block + Written(Lines(listing[|listing|..])) == block
  {
  }

  lemma OneLineMore(before: Text, listing: seq<Header>, i: nat, block: Text)
    requires i < |listing|
    requires block == before + listing[i].name + [COLON, SPACE] + listing[i].value + [CR, LF]
    ensures block + Written(Lines(listing[i + 1..])) == before + Written(Lines(listing[i..]))
  {
    hide Written, Lines;
    WrittenLine(listing[i..]);
    assert listing[i..][1..] == listing[i + 1..];
    assert block == before + LineText(listing[i]);
  }

  function LineText(h: Header): Text { h.name + [COLON, SPACE] + h.value + [CR, LF] }

  lemma WrittenLine(listing: seq<Header>)
    requires listing != []
    ensures Written(Lines(listing)) == LineText(listing[0]) + Written(Lines(listing[1..]))
  {
    assert Lines(listing)[1..] == Lines(listing[1..]);
  }

  function Lines(listing: seq<Header>): seq<Item> {
    seq(|listing|, i requires 0 <= i < |listing| => Entry(listing[i], CrLf))
  }

  predicate WellFormed(items: seq<Item>) {
    forall i :: 0 <= i < |items| && items[i].Entry? ==> Holdable(items[i].header)
  }

  lemma TokensAreSolid(name: Text)
    requires IsName(name)
    ensures name != [] && forall i :: 0 <= i < |name| ==> !IsSpace(name[i]) && name[i] != COLON
  {
  }

  lemma TrimSolid(s: Text)
    requires forall i :: 0 <= i < |s| ==> !IsSpace(s[i])
    ensures Trim(s) == s
  {
  }

  lemma TrimBehindSpace(value: Text)
    ensures Trim([SPACE] + value) == Trim(value)
  {
  }

  lemma TrimmedIsValue(value: Text)
    requires IsValue(value)
    ensures IsValue(Trim(value))
  {
    hide TrimStart, TrimEnd, IsValue;
    StartlessIsValue(value);
    EndlessIsValue(TrimStart(value));
  }

  lemma {:induction false} StartlessIsValue(value: Text)
    requires IsValue(value)
    ensures IsValue(TrimStart(value))
    decreases |value|
  {
    if value != [] {
      StartlessIsValue(value[1..]);
    }
  }

  lemma {:induction false} EndlessIsValue(value: Text)
    requires IsValue(value)
    ensures IsValue(TrimEnd(value))
    decreases |value|
  {
    if value != [] {
      EndlessIsValue(value[..|value| - 1]);
    }
  }

  lemma ALineHolds(h: Header)
    requires Holdable(h)
    ensures var line := LineOf(Entry(h, Lf));
      line != [] && forall i :: 0 <= i < |line| ==> line[i] != LF && line[i] != CR
  {
  }

  /** The line a header is written on reads as that header, its value trimmed, behind either ending. */
  lemma AHeaderReads(h: Header)
    requires Holdable(h)
    ensures ReadLine(LineOf(Entry(h, Lf))) == Read(Trimmed(h))
    ensures ReadLine(LineOf(Entry(h, Lf)) + [CR]) == Read(Trimmed(h))
  {
    hide Trim, FirstOf, IsValue, ReadName;
    var line := LineOf(Entry(h, Lf));
    ALineHolds(h);
    TokensAreSolid(h.name);
    TrimSolid(h.name);
    FirstIsTheCut(COLON, h.name, [SPACE] + h.value);
    assert line == h.name + [COLON] + ([SPACE] + h.value);
    assert line[..|h.name|] == h.name && line[|h.name| + 1..] == [SPACE] + h.value;
    TrimBehindSpace(h.value);
    TrimmedIsValue(h.value);
    assert (line + [CR])[..|line|] == line;
  }

  /** Neither the endings nor blank lines between matter: a block reads as the headers it was written from, trimmed. */
  lemma {:induction false} LayoutDoesNotMatter(items: seq<Item>, number: nat)
    requires WellFormed(items)
    ensures ReadLines(Cut(LF, Written(items)), number) == Ok(HeadersOf(items))
    decreases |items|
  {
    if items == [] {
      NothingWritten(number);
    } else {
      hide Holdable, ReadLine, ReadLines, Cut, Trimmed, LineOf, Written;
      var item, rest := items[0], items[1..];
      var raw := LineOf(item) + if item.ending.Lf? then [] else [CR];
      WrittenFirst(items, raw);
      AnItemReads(item, raw);
      CutAtFirst(LF, raw, Written(rest));
      LayoutDoesNotMatter(rest, number + 1);
      ReadFirst(raw, Cut(LF, Written(rest)), number);
      assert [] + HeadersOf(rest) == HeadersOf(rest);
    }
  }

  lemma NothingWritten(number: nat)
    ensures ReadLines(Cut(LF, []), number) == Ok([])
  {
  }

  lemma WrittenFirst(items: seq<Item>, raw: Text)
    requires items != [] && raw == LineOf(items[0]) + if items[0].ending.Lf? then [] else [CR]
    ensures Written(items) == raw + [LF] + Written(items[1..])
  {
  }

  lemma ReadFirst(raw: Text, lines: seq<Text>, number: nat)
    ensures ReadLine(raw).Blank? ==> ReadLines([raw] + lines, number) == ReadLines(lines, number + 1)
    ensures ReadLine(raw).Read? ==>
              ReadLines([raw] + lines, number) == Behind([ReadLine(raw).header], ReadLines(lines, number + 1))
  {
  }

  lemma AnItemReads(item: Item, raw: Text)
    requires item.Entry? ==> Holdable(item.header)
    requires raw == LineOf(item) + if item.ending.Lf? then [] else [CR]
    ensures LF !in raw && ReadLine(raw) == if item.Entry? then Read(Trimmed(item.header)) else Blank
  {
    hide ReadLine, Holdable, Trimmed;
    if item.Entry? {
      ALineHolds(item.header);
      AHeaderReads(item.header);
      assert LineOf(item) == LineOf(Entry(item.header, Lf));
      hide LineOf;
      assert item.ending.Lf? ==> raw == LineOf(item);
    } else {
      ABlankReads();
      assert raw == if item.ending.Lf? then [] else [CR];
    }
  }

  lemma ABlankReads()
    ensures ReadLine([]) == Blank && ReadLine([CR]) == Blank
  {
  }

  function AllTrimmed(listing: seq<Header>): seq<Header> {
    seq(|listing|, i requires 0 <= i < |listing| => Trimmed(listing[i]))
  }

  lemma FirstOfLines(listing: seq<Header>)
    requires listing != []
    ensures Lines(listing) == [Entry(listing[0], CrLf)] + Lines(listing[1..])
    ensures AllTrimmed(listing) == [Trimmed(listing[0])] + AllTrimmed(listing[1..])
  {
  }

  lemma LastTrimmed(listing: seq<Header>, n: nat)
    requires |listing| == n + 1
    ensures |AllTrimmed(listing)| == n + 1 && AllTrimmed(listing)[n] == Trimmed(listing[n])
    ensures AllTrimmed(listing)[..n] == AllTrimmed(listing[..n])
    ensures NoOuterSpace(listing) <==> NoOuterSpace(listing[..n]) && Trim(listing[n].value) == listing[n].value
  {
  }

  lemma {:induction false} HeadersOfLines(listing: seq<Header>)
    ensures HeadersOf(Lines(listing)) == AllTrimmed(listing)
  {
    if listing != [] {
      hide Trimmed, Lines, AllTrimmed;
      HeadersOfLines(listing[1..]);
      FirstOfLines(listing);
      assert Lines(listing)[1..] == Lines(listing[1..]);
    }
  }

  predicate NoOuterSpace(listing: seq<Header>) {
    forall i :: 0 <= i < |listing| ==> Trim(listing[i].value) == listing[i].value
  }

  /** Two multimaps that a header of one name was added to agree exactly where they and the header's values did. */
  lemma AppendingTellsApart(m: map<Text, seq<Text>>, n: map<Text, seq<Text>>, h: Header, k: Header)
    requires h.name == k.name && (forall x <- m :: m[x] != []) && (forall x <- n :: n[x] != [])
    ensures Appended(m, h) == Appended(n, k) <==> m == n && h.value == k.value
  {
    if Appended(m, h) == Appended(n, k) {
      var a := if h.name in m then m[h.name] else [];
      var b := if h.name in n then n[h.name] else [];
      assert Appended(m, h)[h.name] == a + [h.value] && Appended(n, k)[h.name] == b + [k.value];
      assert a == (a + [h.value])[..|a|] && b == (b + [k.value])[..|b|];
      assert (a + [h.value])[|a|] == h.value && (b + [k.value])[|b|] == k.value;
      forall x ensures x in m <==> x in n {
        assert x != h.name ==> (x in m <==> x in Appended(m, h)) && (x in n <==> x in Appended(n, k));
      }
      forall x | x in m ensures m[x] == n[x] {
        assert x != h.name ==> m[x] == Appended(m, h)[x] && n[x] == Appended(n, k)[x];
      }
    }
  }

  lemma AppendingAddsNoNothing(m: map<Text, seq<Text>>, h: Header)
    requires forall x <- m :: m[x] != []
    ensures forall x <- Appended(m, h) :: Appended(m, h)[x] != []
  {
  }

  lemma {:induction false} TrimmingShows(listing: seq<Header>)
    ensures Multimap(AllTrimmed(listing)) == Multimap(listing) <==> NoOuterSpace(listing)
    ensures (forall x <- Multimap(listing) :: Multimap(listing)[x] != [])
    ensures (forall x <- Multimap(AllTrimmed(listing)) :: Multimap(AllTrimmed(listing))[x] != [])
    decreases |listing|
  {
    if listing != [] {
      var n := |listing| - 1;
      var before, last := listing[..n], listing[n];
      hide Trim, Appended, NoOuterSpace, AllTrimmed;
      TrimmingShows(before);
      LastTrimmed(listing, n);
      AppendingAddsNoNothing(Multimap(before), last);
      AppendingAddsNoNothing(Multimap(AllTrimmed(before)), Trimmed(last));
      AppendingTellsApart(Multimap(AllTrimmed(before)), Multimap(before), Trimmed(last), last);
    }
  }

  /** Decoding what was encoded gives the same header map exactly when no value has space at either end. */
  lemma RoundTripsExactly(listing: seq<Header>)
    requires forall i :: 0 <= i < |listing| ==> Holdable(listing[i])
    ensures Decoded(Written(Lines(listing))) == Ok(AllTrimmed(listing))
    ensures Multimap(AllTrimmed(listing)) == Multimap(listing) <==> NoOuterSpace(listing)
  {
    LayoutDoesNotMatter(Lines(listing), 1);
    HeadersOfLines(listing);
    TrimmingShows(listing);
  }

  /** A value that fails: `a: " b"` is written, and `a: "b"` is read back. */
  lemma OuterSpaceIsLost()
    ensures
      var written := [Header([97], [SPACE, 98])];
      && Decoded(Written(Lines(written))) == Ok([Header([97], [98])])
      && Multimap([Header([97], [98])]) != Multimap(written)
  {
    var written := [Header([97], [SPACE, 98])];
    TrimBehindSpace([98]);
    TrimSolid([98]);
    assert [SPACE, 98] == [SPACE] + [98];
    assert Lowered([97]) == [97];
    RoundTripsExactly(written);
    assert AllTrimmed(written) == [Header([97], [98])];
  }

  // ----- the characters of names, values and space -----

  /** A character a name may be spelt with: `tchar` of section 5.6.2 of RFC 9110. */
  predicate Spells(c: char) {
    || 'a' <= c <= 'z' || 'A' <= c <= 'Z' || '0' <= c <= '9'
    || c in {'!', '#', '$', '%', '&', '\'', '*', '+', '-', '.', '^', '_', '`', '|', '~'}
  }

  /** One letter in either case. */
  predicate SameLetter(a: Byte, b: Byte) {
    a == b || (65 <= a <= 90 && b == a + 32) || (65 <= b <= 90 && a == b + 32)
  }

  /** A name reads the same however its letters are capitalised, and is kept without capitals. */
  lemma CapitalsDoNotMatter(s: Text, t: Text)
    requires |s| == |t| && forall i :: 0 <= i < |s| ==> SameLetter(s[i], t[i])
    ensures ReadName(s) == ReadName(t)
    ensures ReadName(s).Some? ==>
              var name := ReadName(s).value;
              |name| == |s| && forall i :: 0 <= i < |s| ==> SameLetter(name[i], s[i]) && !(65 <= name[i] <= 90)
  {
    if ReadName(s).Some? || ReadName(t).Some? {
      assert forall i :: 0 <= i < |s| ==> (IsToken(s[i]) <==> IsToken(t[i])) && Lower(s[i]) == Lower(t[i]);
      assert Lowered(s) == Lowered(t);
    }
  }

  /** The names there are: one to 65535 token characters. */
  lemma NamesThatRead(s: Text)
    ensures ReadName(s).Some? <==> 1 <= |s| < 65_536 && forall i :: 0 <= i < |s| ==> Spells(s[i] as char)
  {
    assert forall i :: 0 <= i < |s| ==> (IsToken(s[i]) <==> Spells(s[i] as char));
  }

  /** The bytes of a value: a tab, and all that are not control characters. */
  lemma ValueBytes(value: Text)
    ensures IsValue(value) <==> forall i :: 0 <= i < |value| ==> value[i] == 9 || 31 < value[i] < 127 || 127 < value[i]
  {
  }

  predicate IsBlank(b: Byte) { b in {9, 10, 12, 13, 32} }

  /** What trimming takes off a text, and all it takes: the blanks at its ends. */
  lemma TrimTakesTheBlanksOff(s: Text) returns (front: Text, back: Text)
    ensures s == front + Trim(s) + back
    ensures forall i :: 0 <= i < |front| ==> IsBlank(front[i])
    ensures forall i :: 0 <= i < |back| ==> IsBlank(back[i])
    ensures Trim(s) != [] ==> !IsBlank(Trim(s)[0]) && !IsBlank(Trim(s)[|Trim(s)| - 1])
  {
    var m := TrimmedInFront(s);
    var kept := TrimStart(s);
    var n := TrimmedBehind(kept);
    front, back := s[..m], kept[n..];
    assert kept[..n] != [] ==> kept[..n][0] == kept[0];
  }

  lemma {:induction false} TrimmedInFront(s: Text) returns (m: nat)
    ensures m <= |s| && TrimStart(s) == s[m..] && forall i :: 0 <= i < m ==> IsBlank(s[i])
    ensures m < |s| ==> !IsBlank(s[m])
  {
    m := 0;
    if s != [] && IsSpace(s[0]) {
      m := TrimmedInFront(s[1..]);
      assert s[1..][m..] == s[m + 1..] && forall i :: 0 < i <= m ==> s[i] == s[1..][i - 1];
      m := m + 1;
    }
  }

  lemma {:induction false} TrimmedBehind(s: Text) returns (n: nat)
    ensures n <= |s| && TrimEnd(s) == s[..n] && forall i :: n <= i < |s| ==> IsBlank(s[i])
    ensures n > 0 ==> !IsBlank(s[n - 1])
  {
    n := |s|;
    if s != [] && IsSpace(s[|s| - 1]) {
      n := TrimmedBehind(s[..|s| - 1]);
      assert s[..|s| - 1][..n] == s[..n];
    }
  }

  /** What a line reads as that has a colon: the name before the first one, and what is behind it as the value. */
  lemma ALineReadsExactly(name: Text, value: Text, end: Text)
    requires COLON !in name && (end == [CR] || (end == [] && (value == [] || value[|value| - 1] != CR)))
    ensures
      var read := ReadLine(name + [COLON] + value + end);
      && (read == Bad(BadName) <==> ReadName(Trim(name)).None?)
      && (read == Bad(BadValue) <==> ReadName(Trim(name)).Some? && !IsValue(Trim(value)))
      && (read.Read? <==> ReadName(Trim(name)).Some? && IsValue(Trim(value)))
      && (read.Read? ==> read.header == Header(ReadName(Trim(name)).value, Trim(value)))
  {
    hide Trim, ReadName, IsValue;
    var line := name + [COLON] + value;
    var raw := line + end;
    assert (if raw != [] && raw[|raw| - 1] == CR then raw[..|raw| - 1] else raw) == line;
    FirstIsTheCut(COLON, name, value);
    assert line[..|name|] == name && line[|name| + 1..] == value;
  }

  /** What a line reads as that has none. */
  lemma ALineWithoutAColon(raw: Text)
    requires COLON !in raw
    ensures ReadLine(raw) == if raw == [] || raw == [CR] then Blank else Bad(NoColon)
  {
    var line := if raw != [] && raw[|raw| - 1] == CR then raw[..|raw| - 1] else raw;
    assert COLON !in line;
  }
}
