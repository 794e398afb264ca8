/**
 Reading the imported names out of an objdump report on a PE image, and picking the heap functions
 among them.
 */
module PeImports {
  import opened Bytes

  // ---- Words and columns ---------------------------------------------------------------

  predicate IsSpace(c: char) { c == ' ' || '\t' <= c <= '\r' }

  predicate IsHex(c: char) { '0' <= c <= '9' || 'a' <= c <= 'f' || 'A' <= c <= 'F' }

  predicate IsNameStart(c: char) { 'A' <= c <= 'Z' || 'a' <= c <= 'z' || c == '_' || c == '?' }

  predicate IsWord(w: string) { w != [] && forall i :: 0 <= i < |w| ==> !IsSpace(w[i]) }

  predicate Hex(w: string) { w != [] && forall i :: 0 <= i < |w| ==> IsHex(w[i]) }

  predicate Decimal(w: string) { w != [] && forall i :: 0 <= i < |w| ==> '0' <= w[i] <= '9' }

  predicate Name(w: string) { IsWord(w) && IsNameStart(w[0]) }

  function NoOrdinal(): string { "<none>" }

  function WordLength(s: string): (n: nat)
    ensures n <= |s| && (forall i :: 0 <= i < n ==> !IsSpace(s[i])) && (n < |s| ==> IsSpace(s[n]))
  {
    if s == [] || IsSpace(s[0]) then 0 else 1 + WordLength(s[1..])
  }

  /** The maximal runs of characters that are not white space. */
  function Words(s: string): (words: seq<string>)
    ensures forall w :: w in words ==> IsWord(w)
    decreases |s|
  {
    if s == [] then []
    else if IsSpace(s[0]) then Words(s[1..])
    else [s[..WordLength(s)]] + Words(s[WordLength(s)..])
  }

  /**
   The name an indented line gives, by the first of the three column layouts that fits. A column of
   digits must be followed by white space and a name runs up to it, so columns are whole words.
   */
  function NameColumn(words: seq<string>): Option<string> {
    if |words| >= 4 && Hex(words[0]) && (Hex(words[1]) || words[1] == NoOrdinal()) && Hex(words[2]) && Name(words[3])
    then Some(words[3])
    else if |words| >= 3 && Hex(words[0]) && Hex(words[1]) && Name(words[2]) then Some(words[2])
    else if |words| == 2 && Decimal(words[0]) && Name(words[1]) then Some(words[1])
    else None
  }

  function SymbolOf(line: string): Option<string> {
    if line == [] || !IsSpace(line[0]) then None else NameColumn(Words(line))
  }

  // ---- The report ----------------------------------------------------------------------

  predicate At(line: string, i: nat, mark: string) { i + |mark| <= |line| && line[i..i + |mark|] == mark }

  predicate Contains(line: string, mark: string) { exists i: nat | i <= |line| :: At(line, i, mark) }

  predicate EndsImports(line: string) {
    || Contains(line, "The Export Tables") || Contains(line, "Export Table:")
    || Contains(line, "[Ordinal/Name Pointer] Table")
  }

  predicate StartsDll(line: string) { Contains(line, "DLL Name:") }

  /** What the remaining lines give, inside a DLL's section or before the first. */
  function Symbols(lines: seq<string>, inDll: bool): seq<string> {
    if lines == [] || EndsImports(lines[0]) then []
    else if StartsDll(lines[0]) then Symbols(lines[1..], true)
    else if !inDll || SymbolOf(lines[0]).None? then Symbols(lines[1..], inDll)
    else [SymbolOf(lines[0]).value] + Symbols(lines[1..], inDll)
  }

  method SymbolsFromPe(lines: seq<string>) returns (symbols: seq<string>)
    ensures symbols == Symbols(lines, false)
  {
    hide EndsImports, StartsDll, SymbolOf;
    symbols := [];
    var inDll := false;
    assert lines[0..] == lines;
    for i := 0 to |lines|
      invariant symbols + Symbols(lines[i..], inDll) == Symbols(lines, false)
    {
      var line := lines[i];
      assert lines[i..][1..] == lines[i + 1..];
      if EndsImports(line) {
        return;
      } else if StartsDll(line) {
        inDll := true;
      } else if inDll {
        var symbol := SymbolOf(line);
        if symbol.Some? { symbols := symbols + [symbol.value]; }
      }
    }
  }

  // ---- Printing ------------------------------------------------------------------------

  /** A line of columns; `gaps[k]` is the white space before column `k`. */
  function Row(gaps: seq<string>, words: seq<string>): string
    requires |gaps| == |words|
  {
    if words == [] then [] else gaps[0] + words[0] + Row(gaps[1..], words[1..])
  }

  predicate Gap(g: string) { g != [] && forall i :: 0 <= i < |g| ==> IsSpace(g[i]) }

  predicate Gaps(gaps: seq<string>) { forall k :: 0 <= k < |gaps| ==> Gap(gaps[k]) }

  /** One import as recent GNU, older GNU and LLVM tools print it. */
  datatype Import =
    | Gnu(address: string, ordinal: Option<string>, hint: string, name: string)
    | OldGnu(address: string, hint: string, name: string)
    | Llvm(hint: string, name: string)
  {
    function Columns(): (words: seq<string>)
      ensures words != [] && words[|words| - 1] == name
    {
      match this
      case Gnu(a, Some(o), h, n) => [a, o, h, n]
      case Gnu(a, None, h, n) => [a, NoOrdinal(), h, n]
      case OldGnu(a, h, n) => [a, h, n]
      case Llvm(h, n) => [h, n]
    }

    predicate Valid() {
      && Name(name)
      && match this
         case Gnu(a, o, h, _) => Hex(a) && (o.Some? ==> Hex(o.value)) && Hex(h)
         case OldGnu(a, h, _) => Hex(a) && Hex(h)
         case Llvm(h, _) => Decimal(h)
    }
  }

  /** A line of a DLL's section: an import, a descriptor of six hexadecimal fields, or what cannot be an import. */
  datatype Line =
    | Import(gaps: seq<string>, entry: Import)
    | Descriptor(gaps: seq<string>, fields: seq<string>)
    | Other(text: string)
  {
    predicate Valid() {
      match this
      case Import(gaps, entry) => Gaps(gaps) && |gaps| == |entry.Columns()| && entry.Valid()
      case Descriptor(gaps, fields) =>
        Gaps(gaps) && |gaps| == |fields| == 6 && forall k :: 0 <= k < 6 ==> Hex(fields[k])
      case Other(text) => !EndsImports(text) && !StartsDll(text) && SymbolOf(text) == None
    }

    function Text(): string
      requires Valid()
    {
      match this
      case Import(gaps, entry) => Row(gaps, entry.Columns())
      case Descriptor(gaps, fields) => Row(gaps, fields)
      case Other(text) => text
    }

    function Names(): seq<string> { if Import? then [entry.name] else [] }

    /** A descriptor whose time stamp or forwarder chain starts with a letter looks like an import. */
    predicate Misread()
      requires Valid()
    {
      Descriptor? && (IsNameStart(fields[2][0]) || IsNameStart(fields[3][0]))
    }

    /** The name the line seems to give: its own, or the field of a descriptor that stands where names do. */
    function Seen(): (names: seq<string>)
      requires Valid()
      ensures Misread() <==> Descriptor? && names != []
    {
      match this
      case Import(_, entry) => [entry.name]
      case Descriptor(_, fields) =>
        if IsNameStart(fields[3][0]) then [fields[3]] else if IsNameStart(fields[2][0]) then [fields[2]] else []
      case Other(_) => []
    }
  }

  lemma {:induction false} WordsGap(gap: string, s: string)
    requires forall i :: 0 <= i < |gap| ==> IsSpace(gap[i])
    ensures Words(gap + s) == Words(s)
  {
    if gap == [] {
      assert gap + s == s;
    } else {
      assert (gap + s)[1..] == gap[1..] + s;
      WordsGap(gap[1..], s);
    }
  }

  lemma WordsWord(w: string, s: string)
    requires IsWord(w) && (s == [] || IsSpace(s[0]))
    ensures Words(w + s) == [w] + Words(s)
  {
    var all := w + s;
    var n := WordLength(all);
    assert forall i :: 0 <= i < |w| ==> all[i] == w[i];
    assert s != [] ==> all[|w|] == s[0];
    assert all[..n] == w && all[n..] == s;
  }

  /** Columns printed with any white space between them are read back as they were. */
  lemma {:induction false} WordsRow(gaps: seq<string>, words: seq<string>)
    requires |gaps| == |words| && Gaps(gaps) && forall w :: w in words ==> IsWord(w)
    ensures Words(Row(gaps, words)) == words
    ensures words != [] ==> Row(gaps, words) != [] && IsSpace(Row(gaps, words)[0])
  {
    hide Words, IsWord;
    if words == [] {
      WordsNone();
    } else {
      var rest := Row(gaps[1..], words[1..]);
      WordsRow(gaps[1..], words[1..]);
      assert gaps[0] + words[0] + rest == gaps[0] + (words[0] + rest);
      WordsGap(gaps[0], words[0] + rest);
      assert words[0] in words;
      WordsWord(words[0], rest);
    }
  }

  lemma WordsNone()
    ensures Words([]) == []
  {
  }

  /** An import line gives its name; a descriptor gives a field exactly if it can be misread. */
  lemma LineRead(line: Line)
    requires line.Valid()
    ensures SymbolOf(line.Text()) == if line.Seen() == [] then None else Some(line.Seen()[0])
  {
    hide Words, EndsImports, StartsDll;
    match line {
      case Import(gaps, entry) =>
        assert forall w :: w in entry.Columns() ==> IsWord(w);
        WordsRow(gaps, entry.Columns());
      case Descriptor(gaps, fields) =>
        assert forall w :: w in fields ==> IsWord(w);
        WordsRow(gaps, fields);
      case Other(_) =>
    }
  }

  // ---- Headings are not import lines ---------------------------------------------------

  /** The characters before a blank in any of the headings looked for. */
  predicate IsMark(c: char) { c == 'L' || c == 't' || c == ']' }

  predicate Unmarked(line: string) {
    forall j :: 0 < j < |line| && line[j] == ' ' ==> !IsMark(line[j - 1])
  }

  lemma UnmarkedHolds(line: string, mark: string, k: nat)
    requires Unmarked(line) && 0 < k < |mark| && mark[k] == ' ' && IsMark(mark[k - 1])
    ensures !Contains(line, mark)
  {
    forall i: nat ensures !At(line, i, mark) {
      if i + |mark| <= |line| {
        var part := line[i..i + |mark|];
        assert part[k] == line[i + k] && part[k - 1] == line[i + k - 1];
      }
    }
  }

  lemma UnmarkedIsPlain(line: string)
    requires Unmarked(line)
    ensures !EndsImports(line) && !StartsDll(line)
  {
    hide Contains, Unmarked;
    UnmarkedHolds(line, "The Export Tables", 10);
    UnmarkedHolds(line, "Export Table:", 6);
    UnmarkedHolds(line, "[Ordinal/Name Pointer] Table", 22);
    UnmarkedHolds(line, "DLL Name:", 3);
  }

  predicate Plain(w: string) { IsWord(w) && forall i :: 0 <= i < |w| ==> !IsMark(w[i]) }

  /** Before the last column there are only digits and "<none>", which no heading has before a blank. */
  lemma {:induction false} RowUnmarked(gaps: seq<string>, words: seq<string>)
    requires |gaps| == |words| && Gaps(gaps)
    requires forall k :: 0 <= k < |words| ==> IsWord(words[k]) && (k < |words| - 1 ==> Plain(words[k]))
    ensures Unmarked(Row(gaps, words))
  {
    if words != [] {
      var rest := Row(gaps[1..], words[1..]);
      RowUnmarked(gaps[1..], words[1..]);
      if rest == [] { HeadUnmarked(gaps[0], words[0]); } else { ConsUnmarked(gaps[0], words[0], rest); }
    }
  }

  lemma HeadUnmarked(gap: string, word: string)
    requires Gap(gap) && IsWord(word)
    ensures Unmarked(gap + word + [])
  {
    var line := gap + word + [];
    forall j | 0 < j < |line| ensures line[j] == ' ' ==> !IsMark(line[j - 1]) {
      if j < |gap| { assert line[j - 1] == gap[j - 1]; } else { assert line[j] == word[j - |gap|]; }
    }
  }

  lemma ConsUnmarked(gap: string, word: string, rest: string)
    requires Gap(gap) && Plain(word) && Unmarked(rest)
    ensures Unmarked(gap + word + rest)
  {
    var line, n := gap + word + rest, |gap| + |word|;
    forall j | 0 < j < |line| ensures line[j] == ' ' ==> !IsMark(line[j - 1]) {
      if j < |gap| {
        assert line[j - 1] == gap[j - 1];
      } else if j < n {
        assert line[j] == word[j - |gap|];
      } else if j == n {
        assert line[j - 1] == word[|word| - 1];
      } else {
        assert line[j] == rest[j - n] && line[j - 1] == rest[j - n - 1];
      }
    }
  }

  lemma LineIsNoHeading(line: Line)
    requires line.Valid()
    ensures !EndsImports(line.Text()) && !StartsDll(line.Text())
  {
    hide EndsImports, StartsDll, Unmarked, Row;
    match line {
      case Import(gaps, entry) =>
        RowUnmarked(gaps, entry.Columns());
        UnmarkedIsPlain(line.Text());
      case Descriptor(gaps, fields) =>
        RowUnmarked(gaps, fields);
        UnmarkedIsPlain(line.Text());
      case Other(_) =>
    }
  }

  // ---- Reading what was printed --------------------------------------------------------

  predicate AllValid(lines: seq<Line>) { forall k :: 0 <= k < |lines| ==> lines[k].Valid() }

  datatype Section = Section(heading: string, lines: seq<Line>) {
    predicate Valid() {
      StartsDll(heading) && !EndsImports(heading) && AllValid(lines)
    }
  }

  function Texts(lines: seq<Line>): seq<string>
    requires AllValid(lines)
  {
    if lines == [] then [] else [lines[0].Text()] + Texts(lines[1..])
  }

  function LineNames(lines: seq<Line>): seq<string> {
    if lines == [] then [] else lines[0].Names() + LineNames(lines[1..])
  }

  ghost predicate Valid(sections: seq<Section>) { forall k :: 0 <= k < |sections| ==> sections[k].Valid() }

  ghost function Report(sections: seq<Section>): seq<string>
    requires Valid(sections)
  {
    if sections == [] then [] else [sections[0].heading] + Texts(sections[0].lines) + Report(sections[1..])
  }

  function Names(sections: seq<Section>): seq<string> {
    if sections == [] then [] else LineNames(sections[0].lines) + Names(sections[1..])
  }

  function SeenInLines(lines: seq<Line>): seq<string>
    requires AllValid(lines)
  {
    if lines == [] then [] else lines[0].Seen() + SeenInLines(lines[1..])
  }

  /** What all lines of a report seem to give, misread descriptors included. */
  ghost function Seen(sections: seq<Section>): seq<string>
    requires Valid(sections)
  {
    if sections == [] then [] else SeenInLines(sections[0].lines) + Seen(sections[1..])
  }

  lemma LineFirst(line: Line, rest: seq<string>)
    requires line.Valid()
    ensures Symbols([line.Text()] + rest, true) == line.Seen() + Symbols(rest, true)
  {
    hide EndsImports, StartsDll, SymbolOf;
    LineRead(line);
    LineIsNoHeading(line);
    assert ([line.Text()] + rest)[1..] == rest;
  }

  lemma {:induction false} SectionRead(lines: seq<Line>, rest: seq<string>)
    requires AllValid(lines)
    ensures Symbols(Texts(lines) + rest, true) == SeenInLines(lines) + Symbols(rest, true)
  {
    hide Symbols, EndsImports, StartsDll, SymbolOf, Line.Text, Line.Seen, Line.Valid;
    if lines == [] {
      assert Texts(lines) + rest == rest;
    } else {
      SectionRead(lines[1..], rest);
      LineFirst(lines[0], Texts(lines[1..]) + rest);
      assert Texts(lines) + rest == [lines[0].Text()] + (Texts(lines[1..]) + rest);
    }
  }

  lemma HeadingFirst(heading: string, rest: seq<string>, inDll: bool)
    requires StartsDll(heading) && !EndsImports(heading)
    ensures Symbols([heading] + rest, inDll) == Symbols(rest, true)
  {
    hide EndsImports, StartsDll;
    assert ([heading] + rest)[1..] == rest;
  }

  lemma TailRead(tail: seq<string>, inDll: bool)
    requires tail == [] || EndsImports(tail[0])
    ensures Symbols(tail, inDll) == []
  {
  }

  lemma {:induction false} SectionsRead(sections: seq<Section>, tail: seq<string>, inDll: bool)
    requires Valid(sections) && (tail == [] || EndsImports(tail[0]))
    ensures Symbols(Report(sections) + tail, inDll) == Seen(sections)
  {
    hide Symbols, SeenInLines, Texts, StartsDll, EndsImports, Line.Valid;
    if sections == [] {
      TailRead(tail, inDll);
      assert Report(sections) + tail == tail;
    } else {
      var first, rest := sections[0], Report(sections[1..]) + tail;
      assert first.Valid();
      SectionsRead(sections[1..], tail, true);
      SectionRead(first.lines, rest);
      HeadingFirst(first.heading, Texts(first.lines) + rest, inDll);
      assert Report(sections) + tail == [first.heading] + (Texts(first.lines) + rest);
    }
  }

  lemma {:induction false} PreambleSkipped(preamble: seq<string>, rest: seq<string>)
    requires forall k :: 0 <= k < |preamble| ==> !EndsImports(preamble[k]) && !StartsDll(preamble[k])
    ensures Symbols(preamble + rest, false) == Symbols(rest, false)
  {
    hide EndsImports, StartsDll, SymbolOf;
    if preamble == [] {
      assert preamble + rest == rest;
    } else {
      assert (preamble + rest)[1..] == preamble[1..] + rest;
      PreambleSkipped(preamble[1..], rest);
    }
  }

  ghost predicate Unambiguous(sections: seq<Section>)
    requires Valid(sections)
  {
    forall k, i :: 0 <= k < |sections| && 0 <= i < |sections[k].lines| ==>
      sections[k].Valid() && !sections[k].lines[i].Misread()
  }

  /** More than the names is seen exactly if some line is misread. */
  lemma {:induction false} LinesExact(lines: seq<Line>)
    requires AllValid(lines)
    ensures |SeenInLines(lines)| >= |LineNames(lines)|
    ensures |SeenInLines(lines)| == |LineNames(lines)| <==> forall i :: 0 <= i < |lines| ==> !lines[i].Misread()
    ensures |SeenInLines(lines)| == |LineNames(lines)| ==> SeenInLines(lines) == LineNames(lines)
  {
    if lines != [] {
      LinesExact(lines[1..]);
      assert forall i :: 0 < i < |lines| ==> lines[i] == lines[1..][i - 1];
    }
  }

  lemma {:induction false} SeenExact(sections: seq<Section>)
    requires Valid(sections)
    ensures |Seen(sections)| >= |Names(sections)|
    ensures |Seen(sections)| == |Names(sections)| <==> Unambiguous(sections)
    ensures |Seen(sections)| == |Names(sections)| ==> Seen(sections) == Names(sections)
  {
    hide SeenInLines, LineNames, Line.Misread, Line.Valid;
    if sections != [] {
      assert sections[0].Valid();
      SeenExact(sections[1..]);
      LinesExact(sections[0].lines);
      assert forall k :: 0 < k < |sections| ==> sections[k] == sections[1..][k - 1];
    }
  }

  /** What stands before the first DLL is no heading. */
  predicate IsPreamble(preamble: seq<string>) {
    forall k :: 0 <= k < |preamble| ==> !EndsImports(preamble[k]) && !StartsDll(preamble[k])
  }

  predicate IsTail(tail: seq<string>) { tail == [] || EndsImports(tail[0]) }

  /**
   Whatever precedes the first DLL and whatever export table follows, reading a report gives what its
   lines seem to give. These are the imported names in order, if and only if no descriptor has a time
   stamp or chain that starts with a letter.
   */
  lemma ReportRead(preamble: seq<string>, sections: seq<Section>, tail: seq<string>)
    requires IsPreamble(preamble) && Valid(sections) && IsTail(tail)
    ensures Symbols(preamble + (Report(sections) + tail), false) == Seen(sections)
    ensures Symbols(preamble + (Report(sections) + tail), false) == Names(sections) <==> Unambiguous(sections)
  {
    hide EndsImports, StartsDll, Symbols, Report, Names, Seen, Unambiguous;
    PreambleSkipped(preamble, Report(sections) + tail);
    SectionsRead(sections, tail, false);
    SeenExact(sections);
  }

  /** A bound import has the chain -1, which objdump prints as a word that looks like a name. */
  lemma BoundImportMisread(gaps: seq<string>, fields: seq<string>)
    requires Descriptor(gaps, fields).Valid() && fields[3] == "ffffffff"
    ensures SymbolOf(Row(gaps, fields)) == Some("ffffffff")
  {
    hide SymbolOf;
    LineRead(Descriptor(gaps, fields));
  }

  // ---- Heap functions ------------------------------------------------------------------

  const HEAP_APIS: seq<string> := GENERAL_APIS + STRING_APIS + ALIGNED_APIS + RUNTIME_APIS + SIZE_APIS

  const GENERAL_APIS := ["malloc", "calloc", "realloc", "reallocarray", "free", "cfree", "_recalloc", "_expand"]

  const STRING_APIS := [
    "strdup", "strndup", "wcsdup", "_strdup", "_wcsdup", "asprintf", "vasprintf", "asprintf_l", "vasprintf_l"
  ]

  const ALIGNED_APIS := [
    "aligned_alloc", "posix_memalign", "memalign", "valloc", "pvalloc", "_aligned_malloc", "_aligned_realloc",
    "_aligned_recalloc", "_aligned_free", "_aligned_offset_malloc", "_aligned_offset_realloc",
    "_aligned_offset_recalloc"
  ]

  const RUNTIME_APIS := [
    "__libc_malloc", "__libc_calloc", "__libc_realloc", "__libc_free", "__cxa_allocate_exception",
    "__cxa_free_exception", "__cxa_allocate_dependent_exception", "__cxa_free_dependent_exception"
  ]

  const SIZE_APIS := [
    "malloc_size", "malloc_usable_size", "_msize", "_aligned_msize", "_malloc_base", "_calloc_base", "_realloc_base",
    "_free_base"
  ]

  predicate IsHeap(symbol: string) {
    symbol in HEAP_APIS || "_Zn" <= symbol || "_Zd" <= symbol || "malloc_zone_" <= symbol
  }

  /** Among the first three characters there is one that is no digit. */
  predicate Worded(w: string) { |w| >= 3 && !(IsHex(w[0]) && IsHex(w[1]) && IsHex(w[2])) }

  lemma GeneralWorded()
    ensures forall k :: 0 <= k < |GENERAL_APIS| ==> Worded(GENERAL_APIS[k])
  {
  }

  lemma StringWorded()
    ensures forall k :: 0 <= k < |STRING_APIS| ==> Worded(STRING_APIS[k])
  {
  }

  lemma AlignedWorded()
    ensures forall k :: 0 <= k < |ALIGNED_APIS| ==> Worded(ALIGNED_APIS[k])
  {
  }

  lemma RuntimeWorded()
    ensures forall k :: 0 <= k < |RUNTIME_APIS| ==> Worded(RUNTIME_APIS[k])
  {
  }

  lemma SizeWorded()
    ensures forall k :: 0 <= k < |SIZE_APIS| ==> Worded(SIZE_APIS[k])
  {
  }

  /** No heap function is written in hexadecimal digits. */
  lemma HexIsNotHeap(w: string)
    requires Hex(w)
    ensures !IsHeap(w)
  {
    GeneralWorded();
    StringWorded();
    AlignedWorded();
    RuntimeWorded();
    SizeWorded();
    assert forall p: string :: p in HEAP_APIS ==> Worded(p);
    PrefixNotHex("_Zn", w);
    PrefixNotHex("_Zd", w);
    PrefixNotHex("malloc_zone_", w);
  }

  lemma PrefixNotHex(p: string, w: string)
    requires Hex(w) && p != [] && !IsHex(p[0])
    ensures !(p <= w)
  {
    assert IsHex(w[0]);
  }

  /** Code point order, in which Python sorts strings. */
  predicate Before(a: string, b: string) {
    b != [] && (a == [] || a[0] < b[0] || (a[0] == b[0] && Before(a[1..], b[1..])))
  }

  lemma {:induction false} BeforeTotal(a: string, b: string)
    ensures Before(a, b) || a == b || Before(b, a)
    ensures !(Before(a, b) && Before(b, a))
  {
    if a != [] && b != [] {
      BeforeTotal(a[1..], b[1..]);
      if a[0] == b[0] && a[1..] == b[1..] { assert [a[0]] + a[1..] == [b[0]] + b[1..]; }
    }
  }

  lemma {:induction false} BeforeTransitive(a: string, b: string, c: string)
    requires Before(a, b) && Before(b, c)
    ensures Before(a, c)
  {
    if a != [] && a[0] == b[0] && b[0] == c[0] { BeforeTransitive(a[1..], b[1..], c[1..]); }
  }

  predicate Ascending(s: seq<string>) { forall i, j :: 0 <= i < j < |s| ==> Before(s[i], s[j]) }

  /** The set of strings `s` with `x`, in order. */
  method Insert(s: seq<string>, x: string) returns (r: seq<string>)
    requires Ascending(s)
    ensures Ascending(r) && forall y :: y in r <==> y in s || y == x
  {
    hide Before;
    var k := 0;
    while k < |s| && Before(s[k], x)
      invariant 0 <= k <= |s| && forall i :: 0 <= i < k ==> Before(s[i], x)
    {
      k := k + 1;
    }
    if k < |s| && s[k] == x { return s; }
    forall i | k <= i < |s| ensures Before(x, s[i]) {
      BeforeTotal(x, s[k]);
      if i > k { BeforeTransitive(x, s[k], s[i]); }
    }
    return s[..k] + [x] + s[k..];
  }

  /** Exactly the distinct heap functions among the symbols, sorted. */
  method Forbidden(symbols: seq<string>) returns (escaped: seq<string>)
    ensures Ascending(escaped) && forall y :: y in escaped <==> y in symbols && IsHeap(y)
  {
    hide IsHeap, Before;
    escaped := [];
    for i := 0 to |symbols|
      invariant Ascending(escaped) && forall y :: y in escaped <==> y in symbols[..i] && IsHeap(y)
    {
      assert symbols[..i + 1] == symbols[..i] + [symbols[i]];
      if IsHeap(symbols[i]) { escaped := Insert(escaped, symbols[i]); }
    }
    assert symbols[..|symbols|] == symbols;
  }

  lemma {:induction false} LinesHeap(lines: seq<Line>, y: string)
    requires AllValid(lines) && IsHeap(y)
    ensures y in SeenInLines(lines) <==> y in LineNames(lines)
  {
    hide IsHeap;
    if lines != [] {
      LinesHeap(lines[1..], y);
      if lines[0].Misread() { HexIsNotHeap(lines[0].Seen()[0]); }
    }
  }

  /** A misread descriptor field is a run of hexadecimal digits, so it never passes for a heap function. */
  lemma {:induction false} SeenHeap(sections: seq<Section>, y: string)
    requires Valid(sections) && IsHeap(y)
    ensures y in Seen(sections) <==> y in Names(sections)
  {
    hide IsHeap, SeenInLines, LineNames;
    if sections != [] {
      assert sections[0].Valid();
      SeenHeap(sections[1..], y);
      LinesHeap(sections[0].lines, y);
    }
  }

  /** The audit of every report names the heap functions among the imports and nothing else. */
  method Audit(lines: seq<string>, ghost preamble: seq<string>, ghost sections: seq<Section>, ghost tail: seq<string>)
    returns (escaped: seq<string>)
    requires IsPreamble(preamble) && Valid(sections) && IsTail(tail)
    requires lines == preamble + (Report(sections) + tail)
    ensures Ascending(escaped) && forall y :: y in escaped <==> y in Names(sections) && IsHeap(y)
  {
    hide IsPreamble, IsTail, Symbols, IsHeap, Before, Report, Names, Seen, Unambiguous;
    var symbols := SymbolsFromPe(lines);
    ReportRead(preamble, sections, tail);
    escaped := Forbidden(symbols);
    forall y | IsHeap(y) ensures y in Seen(sections) <==> y in Names(sections) { SeenHeap(sections, y); }
  }
}
