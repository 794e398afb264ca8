/**
 The fixture author that prints Mach-O images, and the proof that the reader inverts it:
 exactly the printable sketches come back, unchanged and in order.
 */
module MachOImage {
  import opened Bytes
  import opened MachO

  /** What an image is printed from. */
  datatype Sketch =
    Sketch(name: Text, dependencies: seq<Text>, architecture: Architecture, rpath: bool, exports: seq<Text>)

  /** `@rpath/` */
  function RpathPrefix(): Text { [0x40, 0x72, 0x70, 0x61, 0x74, 0x68, 0x2F] }

  /** `@loader_path` */
  function LoaderPath(): Text { [0x40, 0x6C, 0x6F, 0x61, 0x64, 0x65, 0x72, 0x5F, 0x70, 0x61, 0x74, 0x68] }

  // ---- Printing ------------------------------------------------------------------------

  /** `struct.pack('<nI', ...)`. */
  function Words(ws: seq<nat>): (s: Text)
    ensures |s| == 4 * |ws|
  {
    if ws == [] then [] else Le32(ws[0]) + Words(ws[1..])
  }

  function PathCommand(kind: nat, text: Text): (c: Text)
    ensures |c| == (Minimum(kind) + |text| + 8) / 8 * 8 && |c| % 8 == 0
  {
    var minimum, data := Minimum(kind), text + [0];
    var size := (minimum + |data| + 7) / 8 * 8;
    Words([kind, size, minimum]) + Zeros(minimum - 12) + data + Zeros(size - minimum - |data|)
  }

  function PathCommands(kind: nat, texts: seq<Text>): (cmds: seq<Text>)
    ensures |cmds| == |texts| && forall i :: 0 <= i < |texts| ==> cmds[i] == PathCommand(kind, texts[i])
  {
    seq(|texts|, i requires 0 <= i < |texts| => PathCommand(kind, texts[i]))
  }

  /** The commands before the symbol table command. */
  function Paths(x: Sketch): seq<Text> {
    [PathCommand(LC_ID_DYLIB, RpathPrefix() + x.name)]
    + PathCommands(LC_LOAD_DYLIB, x.dependencies)
    + if x.rpath then [PathCommand(LC_RPATH, LoaderPath())] else []
  }

  /** One `<IBBHQ` symbol: name offset, external-in-section type, section 1, value 1. */
  function Entry(name: nat): (s: Text)
    ensures |s| == 16 && s[4] == 0xF
  {
    Le32(name) + [0xF, 1, 0, 0, 1, 0, 0, 0, 0, 0, 0, 0]
  }

  /** The string pool: a NUL, then every name with its NUL. */
  function Pool(exports: seq<Text>): (s: Text)
    ensures |s| > 0
  {
    if exports == [] then [0]
    else Pool(exports[..|exports| - 1]) + exports[|exports| - 1] + [0]
  }

  function Entries(exports: seq<Text>): (s: Text)
    ensures |s| == 16 * |exports|
  {
    if exports == [] then []
    else Entries(exports[..|exports| - 1]) + Entry(|Pool(exports[..|exports| - 1])|)
  }

  function SymbolOffset(x: Sketch): nat {
    32 + |Flatten(Paths(x))| + 24
  }

  function SymtabCommand(x: Sketch): (c: Text)
    ensures |c| == 24
  {
    Words([LC_SYMTAB, 24, SymbolOffset(x), |x.exports|, SymbolOffset(x) + 16 * |x.exports|, |Pool(x.exports)|])
  }

  function Commands(x: Sketch): (cmds: seq<Text>)
    ensures |cmds| == |Paths(x)| + 1
  {
    Paths(x) + [SymtabCommand(x)]
  }

  function Header(x: Sketch): (s: Text)
    ensures |s| == 32
  {
    Words([MAGIC, Cpu(x.architecture), 0, MH_DYLIB, |Commands(x)|, |Flatten(Commands(x))|, 0, 0])
  }

  function ImageOf(x: Sketch): Text {
    Header(x) + Flatten(Commands(x)) + Entries(x.exports) + Pool(x.exports)
  }

  /** `command(kind, text)` */
  method Command(kind: nat, text: Text) returns (c: Text)
    ensures c == PathCommand(kind, text)
  {
    var minimum := if kind == 0x8000001C then 12 else 24;
    var data := text + [0];
    var size := (minimum + |data| + 7) / 8 * 8;
    assert Words([kind, size, minimum]) == Le32(kind) + Le32(size) + Le32(minimum) by { Words3(kind, size, minimum); }
    return Le32(kind) + Le32(size) + Le32(minimum) + Zeros(minimum - 12) + data + Zeros(size - minimum - |data|);
  }

  lemma Words3(a: nat, b: nat, c: nat)
    ensures Words([a, b, c]) == Le32(a) + Le32(b) + Le32(c)
  {
    hide Le32;
    assert [a, b, c][1..] == [b, c] && [b, c][1..] == [c] && [c][1..] == [];
    assert Words([c]) == Le32(c) && Words([b, c]) == Le32(b) + Le32(c);
  }

  /** One `<IBBHQ` field list: 4, 1, 1, 2 and 8 bytes. */
  lemma EntryFields(name: nat)
    ensures Entry(name) == Le(name, 4) + Le(0xF, 1) + Le(1, 1) + Le(0, 2) + Le(1, 8)
  {
    assert Le(0, 2) == [0] + Le(0, 1) && Le(0, 1) == [0] && Le(0xF, 1) == [0xF] && Le(1, 1) == [1];
    assert Le(1, 8) == [1] + Le(0, 7);
    ZeroField(7);
  }

  lemma {:induction false} ZeroField(width: nat)
    ensures Le(0, width) == Zeros(width)
  {
    if width > 0 { ZeroField(width - 1); }
  }

  method Image(x: Sketch) returns (data: Text)
    ensures data == ImageOf(x)
  {
    hide RpathPrefix, LoaderPath, Words, Flatten, PathCommand, Entry, Le, Le32;
    var id := Command(0xD, RpathPrefix() + x.name);
    var commands := [id];
    for i := 0 to |x.dependencies|
      invariant commands == [id] + PathCommands(LC_LOAD_DYLIB, x.dependencies[..i])
    {
      var dependency := Command(0xC, x.dependencies[i]);
      commands := commands + [dependency];
    }
    assert x.dependencies[..|x.dependencies|] == x.dependencies;
    if x.rpath {
      var path := Command(0x8000001C, LoaderPath());
      commands := commands + [path];
    }
    assert commands == Paths(x);
    var symbolOffset := 32 + |Flatten(commands)| + 24;
    var strings: Text, symbols: Text := [0], [];
    for i := 0 to |x.exports|
      invariant strings == Pool(x.exports[..i]) && symbols == Entries(x.exports[..i])
    {
      assert x.exports[..i + 1][..i] == x.exports[..i];
      EntryFields(|strings|);
      symbols := symbols + (Le(|strings|, 4) + Le(0xF, 1) + Le(1, 1) + Le(0, 2) + Le(1, 8));
      strings := strings + x.exports[i] + [0];
    }
    assert x.exports[..|x.exports|] == x.exports;
    commands := commands
      + [Words([2, 24, symbolOffset, |x.exports|, symbolOffset + |symbols|, |strings|])];
    var body := Flatten(commands);
    var cpu := if x.architecture == Arm64 then 0x0100000C else 0x01000007;
    data := Words([0xFEEDFACF, cpu, 0, 6, |commands|, |body|, 0, 0]) + body + symbols + strings;
  }

  /** What the reader accepts as a name, and the printer can print as one. */
  predicate Printable(text: Text) {
    NameText(text) && 0 !in text
  }

  // ---- Reading printed fields back -----------------------------------------------------

  lemma {:induction false} WordAt(ws: seq<nat>, i: nat, tail: Text)
    requires i < |ws| && ws[i] < TWO_32
    ensures U32(Words(ws) + tail, 4 * i) == ws[i]
  {
    var data := Words(ws) + tail;
    if i == 0 {
      assert data == [] + Le32(ws[0]) + (Words(ws[1..]) + tail);
      ReadBack([], ws[0], Words(ws[1..]) + tail);
    } else {
      assert data[4..|data|] == Words(ws[1..]) + tail;
      WordAt(ws[1..], i - 1, tail);
      SubField(data, 4, |data|, 4 * (i - 1));
    }
  }

  /** A printed path command reads back as its text, if that text has no NUL and is a legal name. */
  lemma PathCommandReads(kind: nat, text: Text)
    requires RoleOf(kind).Some? && kind < TWO_32 && |text| <= MAX_IMAGE
    requires Printable(text)
    ensures var c := PathCommand(kind, text); CommandOk(c) && U32(c, 0) == kind && NameOf(c) == Some(text)
  {
    PathCommandWords(kind, text);
    hide ValidUtf8, U32, Find, PathCommand;
    var c, minimum := PathCommand(kind, text), Minimum(kind);
    assert NameIn(c[minimum..]) == Some(text) by { CStringUnique(c[minimum..], text); }
  }

  lemma PathCommandWords(kind: nat, text: Text)
    requires kind < TWO_32 && |text| <= MAX_IMAGE
    ensures var c := PathCommand(kind, text);
            && U32(c, 0) == kind && U32(c, 4) == |c| && U32(c, 8) == Minimum(kind) < |c|
            && text + [0] <= c[Minimum(kind)..]
  {
    hide U32;
    var c, minimum := PathCommand(kind, text), Minimum(kind);
    var ws, tail := [kind, |c|, minimum], Zeros(minimum - 12) + (text + [0]) + Zeros(|c| - minimum - |text| - 1);
    assert c == Words(ws) + tail;
    WordAt(ws, 0, tail);
    WordAt(ws, 1, tail);
    WordAt(ws, 2, tail);
  }

  lemma SymtabReads(x: Sketch)
    requires |ImageOf(x)| <= MAX_IMAGE
    ensures CommandOk(SymtabCommand(x)) && U32(SymtabCommand(x), 0) == LC_SYMTAB
    ensures TableOf(SymtabCommand(x)) ==
            Table(SymbolOffset(x), |x.exports|, SymbolOffset(x) + 16 * |x.exports|, |Pool(x.exports)|)
  {
    FlattenAppend(Paths(x), [SymtabCommand(x)]);
    hide U32, Paths, Flatten, Pool, Entries, Cpu, Header, Le32;
    var ws := [LC_SYMTAB, 24, SymbolOffset(x), |x.exports|, SymbolOffset(x) + 16 * |x.exports|, |Pool(x.exports)|];
    assert Words(ws) + [] == SymtabCommand(x);
    hide SymtabCommand;
    WordAt(ws, 0, []);
    WordAt(ws, 2, []);
    WordAt(ws, 1, []);
    WordAt(ws, 3, []);
    WordAt(ws, 4, []);
    WordAt(ws, 5, []);
  }

  lemma HeaderReads(x: Sketch)
    requires |ImageOf(x)| <= MAX_IMAGE
    ensures var data := ImageOf(x);
            && U32(data, 0) == MAGIC && U32(data, 4) == Cpu(x.architecture) && U32(data, 12) == MH_DYLIB
            && U32(data, 16) == |Commands(x)| && U32(data, 20) == |Flatten(Commands(x))|
  {
    hide U32, Paths, Flatten, Pool, Entries, Commands;
    CommandCount(x);
    var ws := [MAGIC, Cpu(x.architecture), 0, MH_DYLIB, |Commands(x)|, |Flatten(Commands(x))|, 0, 0];
    var tail := Flatten(Commands(x)) + Entries(x.exports) + Pool(x.exports);
    assert ImageOf(x) == Words(ws) + tail;
    WordAt(ws, 0, tail);
    WordAt(ws, 1, tail);
    WordAt(ws, 3, tail);
    WordAt(ws, 4, tail);
    WordAt(ws, 5, tail);
  }

  /** No command is empty, so there are no more commands than bytes. */
  lemma {:induction false} CountBounded(cmds: seq<Text>)
    requires forall c :: c in cmds ==> |c| > 0
    ensures |cmds| <= |Flatten(cmds)|
  {
    if cmds != [] { CountBounded(cmds[1..]); }
  }

  lemma CommandCount(x: Sketch)
    ensures |Commands(x)| <= |Flatten(Commands(x))|
  {
    CountBounded(Commands(x));
  }

  // ---- The command list ----------------------------------------------------------------

  lemma {:induction false} PathCommandsNames(kind: nat, texts: seq<Text>, role: Role)
    requires RoleOf(kind).Some? && kind < TWO_32
    requires forall t :: t in texts ==> Printable(t) && |t| <= MAX_IMAGE
    ensures CommandsOk(PathCommands(kind, texts)) && Tables(PathCommands(kind, texts)) == []
    ensures Names(PathCommands(kind, texts), role) == if RoleOf(kind) == Some(role) then texts else []
  {
    hide CommandOk, PathCommand, NameOf, U32, Printable, NameText, RoleOf, Names, Tables, Named, TableIn;
    NamesNil(role);
    if texts == [] {
      assert PathCommands(kind, texts) == [];
    } else {
      var init, last := texts[..|texts| - 1], texts[|texts| - 1];
      assert last in texts && forall t :: t in init ==> t in texts;
      PathCommandsNames(kind, init, role);
      PathCommandNamed(kind, last, role);
      Extend(PathCommands(kind, init), PathCommand(kind, last), role);
      assert PathCommands(kind, texts) == PathCommands(kind, init) + [PathCommand(kind, last)];
      assert init + [last] == texts;
    }
  }

  lemma PathCommandNamed(kind: nat, text: Text, role: Role)
    requires RoleOf(kind).Some? && kind < TWO_32 && Printable(text) && |text| <= MAX_IMAGE
    ensures CommandOk(PathCommand(kind, text)) && TableIn(PathCommand(kind, text)) == []
    ensures Named(PathCommand(kind, text), role) == if RoleOf(kind) == Some(role) then [text] else []
  {
    hide U32, NameOf, ValidUtf8, PathCommand;
    PathCommandReads(kind, text);
  }

  predicate SketchPrintable(x: Sketch) {
    && ValidUtf8(x.name) && 0 !in x.name && 10 !in x.name && 13 !in x.name
    && (forall d :: d in x.dependencies ==> Printable(d))
    && (forall e :: e in x.exports ==> ValidUtf8(e) && 0 !in e)
    && |x.dependencies| + 2 + (if x.rpath then 1 else 0) <= MAX_COMMANDS
    && |ImageOf(x)| <= MAX_IMAGE
  }

  function Expected(x: Sketch): Metadata {
    Metadata(RpathPrefix() + x.name, x.dependencies, if x.rpath then [LoaderPath()] else [], x.exports)
  }

  lemma PrefixBytes()
    ensures RpathPrefix() != [] && forall b :: b in RpathPrefix() ==> 0x2F <= b < 0x80
    ensures 0 < |LoaderPath()| <= 32 && forall b :: b in LoaderPath() ==> 0x2F <= b < 0x80
  {
  }

  /** The install name is printable exactly when the bare name has no NUL, newline or bad UTF-8. */
  lemma InstallNamePrintable(name: Text)
    ensures Printable(RpathPrefix() + name) <==> ValidUtf8(name) && 0 !in name && 10 !in name && 13 !in name
    ensures Printable(LoaderPath())
  {
    hide RpathPrefix, LoaderPath, CharLength;
    PrefixBytes();
    AsciiPrefixUtf8(RpathPrefix(), name);
    AsciiPrefixUtf8(LoaderPath(), []);
    assert LoaderPath() + [] == LoaderPath();
    assert forall b :: b in RpathPrefix() + name <==> b in RpathPrefix() || b in name;
  }

  lemma PathShort(x: Sketch, i: nat)
    requires i < |Paths(x)|
    ensures |Paths(x)[i]| <= |ImageOf(x)| && |ImageOf(x)| >= 32
  {
    hide Paths, Pool, Entries, Words;
    FlattenAppend(Paths(x), [SymtabCommand(x)]);
    PartShort(Paths(x), i);
  }

  /** Every text in a sketch is shorter than the image printed from it. */
  lemma TextsShort(x: Sketch)
    ensures |RpathPrefix() + x.name| <= |ImageOf(x)| && |LoaderPath()| <= |ImageOf(x)|
    ensures forall d :: d in x.dependencies ==> |d| <= |ImageOf(x)|
  {
    hide RpathPrefix, LoaderPath, ImageOf;
    PrefixBytes();
    PathShort(x, 0);
    forall d | d in x.dependencies ensures |d| <= |ImageOf(x)| {
      var i :| 0 <= i < |x.dependencies| && x.dependencies[i] == d;
      assert Paths(x)[1 + i] == PathCommand(LC_LOAD_DYLIB, d);
      PathShort(x, 1 + i);
    }
  }

  lemma {:induction false} PartShort(parts: seq<Text>, i: nat)
    requires i < |parts|
    ensures |parts[i]| <= |Flatten(parts)|
  {
    if i > 0 { PartShort(parts[1..], i - 1); }
  }

  /** The names of one role in a sketch. */
  function Wanted(x: Sketch, role: Role): seq<Text> {
    match role
    case InstallId => [Expected(x).id]
    case Dependency => x.dependencies
    case Rpath => Expected(x).rpaths
  }

  /** The texts of one role are all printable and shorter than the image. */
  lemma WantedPrintable(x: Sketch, role: Role)
    requires SketchPrintable(x)
    ensures forall t :: t in Wanted(x, role) ==> Printable(t) && |t| <= MAX_IMAGE
  {
    hide RpathPrefix, LoaderPath, ImageOf, NameText;
    InstallNamePrintable(x.name);
    TextsShort(x);
  }

  function KindOf(role: Role): (kind: nat)
    ensures kind < TWO_32 && RoleOf(kind) == Some(role)
  {
    match role
    case InstallId => LC_ID_DYLIB
    case Dependency => LC_LOAD_DYLIB
    case Rpath => LC_RPATH
  }

  function Part(x: Sketch, role: Role): seq<Text> { PathCommands(KindOf(role), Wanted(x, role)) }

  lemma PathsParts(x: Sketch)
    ensures Paths(x) == Part(x, InstallId) + Part(x, Dependency) + Part(x, Rpath)
  {
    hide RpathPrefix, LoaderPath, PathCommand;
  }

  lemma PartReads(x: Sketch, part: Role, role: Role)
    requires SketchPrintable(x)
    ensures CommandsOk(Part(x, part)) && Tables(Part(x, part)) == []
    ensures Names(Part(x, part), role) == if part == role then Wanted(x, part) else []
  {
    hide SketchPrintable, Printable, PathCommands, Wanted, CommandOk, Names, Tables, NameText;
    WantedPrintable(x, part);
    PathCommandsNames(KindOf(part), Wanted(x, part), role);
  }

  lemma PathsRead(x: Sketch, role: Role)
    requires SketchPrintable(x)
    ensures CommandsOk(Paths(x)) && Tables(Paths(x)) == [] && Names(Paths(x), role) == Wanted(x, role)
  {
    hide SketchPrintable, Paths, Part, Wanted, CommandOk, Names, Tables, NameText;
    PartReads(x, InstallId, role);
    PartReads(x, Dependency, role);
    PartReads(x, Rpath, role);
    PathsParts(x);
    NamesAppend(Part(x, InstallId), Part(x, Dependency), role);
    NamesAppend(Part(x, InstallId) + Part(x, Dependency), Part(x, Rpath), role);
  }

  lemma CommandsRead(x: Sketch, role: Role)
    requires SketchPrintable(x)
    ensures CommandsOk(Commands(x)) && Tables(Commands(x)) == [SymtabCommand(x)]
    ensures Names(Commands(x), role) == Wanted(x, role)
  {
    hide ImageOf, CommandOk, U32, NameOf, SymtabCommand, ValidUtf8, Names, Tables, Paths, Wanted, Named, TableIn;
    PathsRead(x, role);
    SymtabReads(x);
    TableCommandSays(SymtabCommand(x), role);
    Extend(Paths(x), SymtabCommand(x), role);
  }

  // ---- The symbol table ----------------------------------------------------------------

  /** Entry `i` of the printed table names the pool position where export `i` was written. */
  lemma {:induction false} EntryAt(exports: seq<Text>, i: nat)
    requires i < |exports|
    ensures Entries(exports)[16 * i..16 * i + 16] == Entry(|Pool(exports[..i])|)
    ensures |Pool(exports[..i])| + |exports[i]| < |Pool(exports)|
    ensures exports[i] + [0] <= Pool(exports)[|Pool(exports[..i])|..]
    decreases |exports|
  {
    hide Entry;
    var n := |exports| - 1;
    var init := exports[..n];
    var all, before := Pool(exports), Pool(init);
    assert all == before + exports[n] + [0];
    assert Entries(exports) == Entries(init) + Entry(|before|) && |Entries(init)| == 16 * n;
    if i < n {
      EntryAt(init, i);
      assert init[..i] == exports[..i];
      assert Entries(exports)[16 * i..16 * i + 16] == Entries(init)[16 * i..16 * i + 16];
      var at := |Pool(exports[..i])|;
      assert all[at..] == before[at..] + exports[n] + [0];
    } else {
      assert exports[..i] == init;
      assert Entries(exports)[16 * i..16 * i + 16] == Entry(|before|);
      assert all[|before|..] == exports[i] + [0];
    }
  }

  lemma EntryReads(x: Sketch, i: nat)
    requires SketchPrintable(x) && i < |x.exports|
    ensures var data, t := ImageOf(x), TableOf(SymtabCommand(x));
            && i < t.count && TableInside(t, 0, |data|) && PublicAt(data, t, i)
            && U32(data, t.symbols + 16 * i) == |Pool(x.exports[..i])|
  {
    hide U32, Header, Commands, SymtabCommand, ValidUtf8, Pool, Entries, RpathPrefix, LoaderPath, Paths;
    hide Flatten, TableOf, PublicMask, Entry;
    TableLies(x);
    var data, t := ImageOf(x), TableOf(SymtabCommand(x));
    var at, entry := |Pool(x.exports[..i])|, t.symbols + 16 * i;
    EntryAt(x.exports, i);
    assert data[entry..entry + 16] == Entry(at);
    assert data[entry + 4] == data[entry..entry + 16][4];
    PublicKinds(0xF);
    EntryName(at);
    SubField(data, entry, entry + 16, 0);
  }

  lemma SymbolReads(x: Sketch, i: nat)
    requires SketchPrintable(x) && i < |x.exports|
    ensures var data, t := ImageOf(x), TableOf(SymtabCommand(x));
            && i < t.count && TableInside(t, 0, |data|)
            && PublicAt(data, t, i) && SymbolName(data, t, i) == Some(x.exports[i])
  {
    hide U32, Header, Commands, SymtabCommand, ValidUtf8, Pool, Entries, RpathPrefix, LoaderPath, Paths;
    hide Flatten, TableOf, PublicAt, Find, CString;
    TableLies(x);
    EntryReads(x, i);
    EntryAt(x.exports, i);
    var data, t := ImageOf(x), TableOf(SymtabCommand(x));
    var at, to := |Pool(x.exports[..i])|, t.strings + t.stringBytes;
    assert data[t.strings + at..to] == Pool(x.exports)[at..];
    CStringUnique(Pool(x.exports)[at..], x.exports[i]);
  }

  lemma EntryName(name: nat)
    requires name < TWO_32
    ensures U32(Entry(name), 0) == name
  {
    assert Entry(name) == [] + Le32(name) + [0xF, 1, 0, 0, 1, 0, 0, 0, 0, 0, 0, 0];
    ReadBack([], name, [0xF, 1, 0, 0, 1, 0, 0, 0, 0, 0, 0, 0]);
  }

  lemma TableLies(x: Sketch)
    requires SketchPrintable(x)
    ensures var data, t := ImageOf(x), TableOf(SymtabCommand(x));
            && t.count == |x.exports| && t.symbols == 32 + |Flatten(Commands(x))|
            && t.strings == t.symbols + 16 * t.count && t.stringBytes == |Pool(x.exports)|
            && TableInside(t, 32 + |Flatten(Commands(x))|, |data|) && |data| <= MAX_IMAGE
  {
    hide U32, Header, SymtabCommand, ValidUtf8, Pool, Entries, RpathPrefix, LoaderPath, Paths;
    SymtabReads(x);
    FlattenAppend(Paths(x), [SymtabCommand(x)]);
  }

  lemma {:induction false} ExportsRead(x: Sketch, k: nat)
    requires SketchPrintable(x) && k <= |x.exports|
    ensures var data, t := ImageOf(x), TableOf(SymtabCommand(x));
            k <= t.count && TableInside(t, 0, |data|) && Exports(data, t, k) == Some(x.exports[..k])
  {
    hide ImageOf, SymtabCommand, SketchPrintable, TableOf, SymbolName, PublicAt;
    TableLies(x);
    if k > 0 {
      ExportsRead(x, k - 1);
      SymbolReads(x, k - 1);
      assert x.exports[..k - 1] + [x.exports[k - 1]] == x.exports[..k];
    }
  }

  // ---- Main results --------------------------------------------------------------------

  lemma ExpectedParts(x: Sketch)
    ensures |Wanted(x, InstallId)| == 1
    ensures Expected(x) == Metadata(Wanted(x, InstallId)[0], Wanted(x, Dependency), Wanted(x, Rpath), x.exports)
  {
    hide RpathPrefix, LoaderPath;
  }

  lemma PrintedExports(x: Sketch)
    requires SketchPrintable(x)
    ensures ExportsOf(ImageOf(x), 32 + |Flatten(Commands(x))|, [SymtabCommand(x)]) == Some(x.exports)
  {
    hide ImageOf, SymtabCommand, TableOf, Exports, Commands, Flatten, SketchPrintable;
    TableLies(x);
    ExportsRead(x, |x.exports|);
    assert x.exports[..|x.exports|] == x.exports;
  }

  lemma ImageDeclares(x: Sketch)
    requires SketchPrintable(x)
    ensures CommandsOk(Commands(x))
    ensures Declared(ImageOf(x), 32 + |Flatten(Commands(x))|, Commands(x)) == Some(Expected(x))
  {
    hide ImageOf, SymtabCommand, ExportsOf, CommandOk, Names, Tables, Commands, Flatten, SketchPrintable;
    hide Wanted, Expected;
    CommandsRead(x, InstallId);
    CommandsRead(x, Dependency);
    CommandsRead(x, Rpath);
    PrintedExports(x);
    ExpectedParts(x);
  }

  lemma ImageDescribed(x: Sketch)
    requires SketchPrintable(x)
    ensures Inspected(ImageOf(x), x.architecture) == Some(Expected(x))
  {
    hide ImageOf, U32, CommandOk, Declared, Commands, Flatten, ValidUtf8, RpathPrefix, LoaderPath, Expected;
    HeaderReads(x);
    ImageDeclares(x);
    CommandRegion(x);
    InspectedLayout(ImageOf(x), x.architecture, Expected(x));
  }

  lemma CommandRegion(x: Sketch)
    ensures |ImageOf(x)| >= 32 + |Flatten(Commands(x))| && |Commands(x)| == |Paths(x)| + 1
    ensures ImageOf(x)[32..32 + |Flatten(Commands(x))|] == Flatten(Commands(x))
    ensures |Paths(x)| == 1 + |x.dependencies| + if x.rpath then 1 else 0
  {
    hide RpathPrefix, LoaderPath, PathCommand, Words;
  }

  /** Whatever the reader reports can be printed: names are legal and exports are NUL-free UTF-8. */
  lemma ReportedTexts(data: Text, architecture: Architecture, m: Metadata)
    requires Inspected(data, architecture) == Some(m)
    ensures Printable(m.id) && forall d :: d in m.dependencies + m.rpaths ==> Printable(d)
    ensures forall e :: e in m.exports ==> ValidUtf8(e) && 0 !in e
  {
    hide U32, CommandOk, ValidUtf8, Exports, Names, Tables;
    var end := 32 + U32(data, 20);
    var cmds := Split(data[32..end], U32(data, 16)).value;
    var tables := Tables(cmds);
    assert m.id in Names(cmds, InstallId);
    if tables != [] { ExportsLegal(data, TableOf(tables[0]), TableOf(tables[0]).count); }
  }

  lemma {:induction false} ExportsLegal(data: Text, t: Table, k: nat)
    requires k <= t.count && TableInside(t, 0, |data|) && Exports(data, t, k).Some?
    ensures forall e :: e in Exports(data, t, k).value ==> ValidUtf8(e) && 0 !in e
  {
    hide ValidUtf8, SymbolName;
    if k > 0 { ExportsLegal(data, t, k - 1); }
  }

  /**
   The reader inverts the printer: it reports exactly the printed install name, dependencies,
   run paths and exports, in order, for the printable sketches read as their own architecture,
   and for no others.
   */
  lemma ImageRoundTrip(x: Sketch, architecture: Architecture)
    ensures Inspected(ImageOf(x), architecture) == Some(Expected(x)) <==>
            SketchPrintable(x) && architecture == x.architecture
  {
    hide ImageOf, RpathPrefix, LoaderPath, U32, ValidUtf8, Described;
    if SketchPrintable(x) && architecture == x.architecture {
      ImageDescribed(x);
    } else if Inspected(ImageOf(x), architecture) == Some(Expected(x)) {
      ReportedTexts(ImageOf(x), architecture, Expected(x));
      InstallNamePrintable(x.name);
      HeaderReads(x);
      CommandRegion(x);
    }
  }

  /** Bytes after an accepted image change nothing, as long as the longer image is still within the limit. */
  lemma ExtensionStable(data: Text, more: Text, architecture: Architecture, m: Metadata)
    requires Inspected(data, architecture) == Some(m) && |data + more| <= MAX_IMAGE
    ensures Inspected(data + more, architecture) == Some(m)
  {
    hide U32, CommandOk, ValidUtf8, Exports, Names, Tables, Split;
    var long, end := data + more, 32 + U32(data, 20);
    assert long[0..|data|] == data;
    forall at | 0 <= at <= |data| - 4 ensures U32(long, at) == U32(data, at) { SubField(long, 0, |data|, at); }
    assert long[32..end] == data[32..end];
    var tables := Tables(Split(data[32..end], U32(data, 16)).value);
    if tables != [] { ExportsExtend(data, more, TableOf(tables[0]), TableOf(tables[0]).count); }
  }

  lemma {:induction false} ExportsExtend(data: Text, more: Text, t: Table, k: nat)
    requires k <= t.count && TableInside(t, 0, |data|)
    ensures Exports(data + more, t, k) == Exports(data, t, k)
  {
    hide U32, IsPublic, CString, ValidUtf8;
    if k > 0 {
      ExportsExtend(data, more, t, k - 1);
      var long, entry := data + more, t.symbols + 16 * (k - 1);
      assert long[0..|data|] == data;
      SubField(long, 0, |data|, entry);
      var from, to := t.strings + U32(data, entry), t.strings + t.stringBytes;
      if from < to { assert long[from..to] == data[from..to]; }
      assert long[entry + 4] == data[entry + 4];
    }
  }
}
