/**
 The static Mach-O reader. `Inspected` says what a thin dylib image declares, piece by piece:
 a header, a region cut into self-sized load commands, the names those commands carry, and
 the public part of the symbol table. `Inspect` is the single pass that computes it.
 */
module MachO {
  import opened Bytes

  datatype Architecture = Arm64 | X86_64

  function Cpu(architecture: Architecture): nat {
    match architecture
    case Arm64 => 0x0100000C
    case X86_64 => 0x01000007
  }

  const MAGIC := 0xFEEDFACF
  const MH_DYLIB := 6
  const MAX_IMAGE := 32 * 1024 * 1024
  const MAX_COMMANDS := 4096
  const LC_SYMTAB := 0x2
  const LC_LOAD_DYLIB := 0xC
  const LC_ID_DYLIB := 0xD
  const LC_RPATH := 0x8000001C

  datatype Metadata = Metadata(id: Text, dependencies: seq<Text>, rpaths: seq<Text>, exports: seq<Text>)

  /** The reader's complaints, in the order it can raise them. */
  datatype Problem =
    | ImageSize | NotThinDylib | CommandBounds | TruncatedCommand | InvalidCommandSize
    | InvalidSymbolTableCommand | TruncatedPathCommand | StringOffset | UnterminatedString | NotUtf8
    | InvalidText | SizeOrIdMismatch | SymbolTableBounds | SymbolNameBounds | UnterminatedSymbolName

  /** Either a value or the ValueError the tool exits with. */
  datatype Result<+T> = Accepted(value: T) | Refused(problem: Problem) {
    function Found(): Option<T> {
      if Accepted? then Some(value) else None
    }
  }

  // ---- Header and command region -------------------------------------------------------

  predicate HeaderOk(data: Text, architecture: Architecture) {
    && 32 <= |data| <= MAX_IMAGE
    && U32(data, 0) == MAGIC && U32(data, 4) == Cpu(architecture) && U32(data, 12) == MH_DYLIB
    && U32(data, 16) <= MAX_COMMANDS && U32(data, 20) <= |data| - 32
  }

  /** A load command that states its own length, a positive multiple of eight. */
  predicate Sized(c: Text) {
    |c| >= 8 && |c| % 8 == 0 && U32(c, 4) == |c|
  }

  /** Cuts `body` into exactly `n` sized commands. */
  function Split(body: Text, n: nat): (r: Option<seq<Text>>)
    ensures r.Some? ==> |r.value| == n && Flatten(r.value) == body && forall c :: c in r.value ==> Sized(c)
  {
    if n == 0 then
      if body == [] then Some([]) else None
    else if |body| < 8 then None
    else
      var size := U32(body, 4);
      if size < 8 || size % 8 != 0 || size > |body| then None
      else
        var c := body[..size];
        SubField(body, 0, size, 4);
        match Split(body[size..], n - 1)
        case None => None
        case Some(rest) => Some([c] + rest)
  }

  /** Commands that state their length can be laid end to end and cut apart in one way only. */
  lemma {:induction false} SplitFlatten(cmds: seq<Text>)
    requires forall c :: c in cmds ==> Sized(c)
    ensures Split(Flatten(cmds), |cmds|) == Some(cmds)
  {
    if cmds != [] {
      var c, body := cmds[0], Flatten(cmds);
      assert c in cmds && body[..|c|] == c && body[|c|..] == Flatten(cmds[1..]);
      SubField(body, 0, |c|, 4);
      SplitFlatten(cmds[1..]);
      assert [c] + cmds[1..] == cmds;
    }
  }

  // ---- What one command says -----------------------------------------------------------

  datatype Role = InstallId | Dependency | Rpath

  /** Which list a command's name belongs to; the four load kinds all name a dependency. */
  function RoleOf(kind: nat): Option<Role> {
    if kind == LC_ID_DYLIB then Some(InstallId)
    else if kind == LC_RPATH then Some(Rpath)
    else if kind == LC_LOAD_DYLIB || kind == 0x80000018 || kind == 0x8000001F || kind == 0x80000023 then
      Some(Dependency)
    else None
  }

  function Minimum(kind: nat): (m: nat) {
    if kind == LC_RPATH then 12 else 24
  }

  predicate NameText(v: Text) {
    ValidUtf8(v) && v != [] && 10 !in v && 13 !in v
  }

  function NameIn(raw: Text): (v: Option<Text>)
    ensures v.Some? ==> NameText(v.value) && 0 !in v.value
  {
    match CString(raw)
    case None => None
    case Some(v) => if NameText(v) then Some(v) else None
  }

  /** The name held by a dylib or rpath command, when its string field is well formed. */
  function NameOf(c: Text): (v: Option<Text>)
    requires |c| >= 8
    ensures v.Some? ==> NameText(v.value) && 0 !in v.value
  {
    var minimum := Minimum(U32(c, 0));
    if |c| < minimum then None
    else
      var start := U32(c, 8);
      if !(minimum <= start < |c|) then None
      else
        NameIn(c[start..])
  }

  predicate CommandOk(c: Text) {
    && Sized(c)
    && (U32(c, 0) == LC_SYMTAB ==> |c| == 24)
    && (RoleOf(U32(c, 0)).Some? ==> NameOf(c).Some?)
  }

  predicate CommandsOk(cmds: seq<Text>) {
    forall c :: c in cmds ==> CommandOk(c)
  }

  /** The name this command adds to a role's list, if any. */
  function Named(c: Text, role: Role): (names: seq<Text>)
    ensures forall v :: v in names ==> NameText(v) && 0 !in v
  {
    if |c| >= 8 && RoleOf(U32(c, 0)) == Some(role) && NameOf(c).Some? then [NameOf(c).value] else []
  }

  /** The names of the commands in one role, in file order. */
  function Names(cmds: seq<Text>, role: Role): (names: seq<Text>)
    ensures forall v :: v in names ==> NameText(v) && 0 !in v
  {
    if cmds == [] then [] else Names(cmds[..|cmds| - 1], role) + Named(cmds[|cmds| - 1], role)
  }

  function TableIn(c: Text): (tables: seq<Text>)
    ensures forall t :: t in tables ==> |t| == 24
  {
    if |c| == 24 && U32(c, 0) == LC_SYMTAB then [c] else []
  }

  /** The symbol table commands. */
  function Tables(cmds: seq<Text>): (tables: seq<Text>)
    ensures forall c :: c in tables ==> |c| == 24
  {
    if cmds == [] then [] else Tables(cmds[..|cmds| - 1]) + TableIn(cmds[|cmds| - 1])
  }

  lemma TableCommandSays(c: Text, role: Role)
    requires |c| == 24 && U32(c, 0) == LC_SYMTAB
    ensures TableIn(c) == [c] && Named(c, role) == []
  {
    hide U32, NameOf, NameText;
  }

  lemma Extend(done: seq<Text>, c: Text, role: Role)
    ensures Tables(done + [c]) == Tables(done) + TableIn(c)
    ensures Names(done + [c], role) == Names(done, role) + Named(c, role)
  {
    hide Named, TableIn, NameText;
    assert (done + [c])[..|done|] == done;
  }

  lemma NamesNil(role: Role)
    ensures Names([], role) == [] && Tables([]) == []
  {
  }

  lemma {:induction false} NamesAppend(a: seq<Text>, b: seq<Text>, role: Role)
    ensures Names(a + b, role) == Names(a, role) + Names(b, role)
    ensures Tables(a + b) == Tables(a) + Tables(b)
  {
    hide Named, TableIn, Names, Tables, NameText;
    NamesNil(role);
    if b == [] {
      assert a + b == a;
    } else {
      var init, last := b[..|b| - 1], b[|b| - 1];
      NamesAppend(a, init, role);
      assert a + b == (a + init) + [last] && b == init + [last];
      Extend(a + init, last, role);
      Extend(init, last, role);
    }
  }

  // ---- Symbol table --------------------------------------------------------------------

  datatype Table = Table(symbols: nat, count: nat, strings: nat, stringBytes: nat)

  function TableOf(c: Text): Table
    requires |c| == 24
  {
    Table(U32(c, 8), U32(c, 12), U32(c, 16), U32(c, 20))
  }

  predicate TableInside(t: Table, end: nat, length: nat) {
    && end <= t.symbols && t.symbols + 16 * t.count <= length
    && end <= t.strings && t.strings + t.stringBytes <= length
  }

  /** The `n_type` test on one symbol, with the masks of the loader's format. */
  predicate PublicMask(k: bv8) {
    k & 0xE0 == 0 && k & 1 != 0 && k & 0x10 == 0 && k & 0x0E != 0
  }

  lemma PublicMaskValues(k: bv8)
    ensures PublicMask(k) <==> k == 3 || k == 5 || k == 7 || k == 9 || k == 11 || k == 13 || k == 15
  {
  }

  predicate IsPublic(kind: byte) {
    PublicMask(kind as bv8)
  }

  /** The masks leave seven values: external, defined, and neither debug nor private-external. */
  lemma PublicKinds(kind: byte)
    ensures IsPublic(kind) <==> kind in {3, 5, 7, 9, 11, 13, 15}
  {
    PublicMaskValues(kind as bv8);
  }

  /** Entry `i` of the table is a public export. */
  predicate PublicAt(data: Text, t: Table, i: nat)
    requires i < t.count && t.symbols + 16 * t.count <= |data|
  {
    IsPublic(data[t.symbols + 16 * i + 4])
  }

  /** The name of entry `i`, when it lies inside the string pool and is NUL-terminated UTF-8 there. */
  function SymbolName(data: Text, t: Table, i: nat): (v: Option<Text>)
    requires i < t.count && TableInside(t, 0, |data|)
    ensures v.Some? ==> ValidUtf8(v.value) && 0 !in v.value
  {
    var name := U32(data, t.symbols + 16 * i);
    if name >= t.stringBytes then None
    else
      match CString(data[t.strings + name..t.strings + t.stringBytes])
      case None => None
      case Some(v) => if ValidUtf8(v) then Some(v) else None
  }

  /** Names of the public entries among the first `k`, in table order; None if one is malformed. */
  function Exports(data: Text, t: Table, k: nat): Option<seq<Text>>
    requires k <= t.count && TableInside(t, 0, |data|)
  {
    if k == 0 then Some([])
    else
      match Exports(data, t, k - 1)
      case None => None
      case Some(before) =>
        if !PublicAt(data, t, k - 1) then Some(before)
        else
          match SymbolName(data, t, k - 1)
          case None => None
          case Some(v) => Some(before + [v])
  }

  /** How many of the first `k` entries are public. */
  function PublicBefore(data: Text, t: Table, k: nat): (n: nat)
    requires k <= t.count && TableInside(t, 0, |data|)
  {
    if k == 0 then 0 else PublicBefore(data, t, k - 1) + if PublicAt(data, t, k - 1) then 1 else 0
  }

  /** No public entry is skipped and none is added: entry `i` is export number `PublicBefore(i)`. */
  lemma {:induction false} ExportsComplete(data: Text, t: Table, k: nat, i: nat)
    requires i < k <= t.count && TableInside(t, 0, |data|) && Exports(data, t, k).Some?
    ensures |Exports(data, t, k).value| == PublicBefore(data, t, k)
    ensures PublicAt(data, t, i) ==>
              && PublicBefore(data, t, i) < PublicBefore(data, t, k)
              && SymbolName(data, t, i) == Some(Exports(data, t, k).value[PublicBefore(data, t, i)])
    decreases k
  {
    hide SymbolName, IsPublic;
    if i < k - 1 {
      ExportsComplete(data, t, k - 1, i);
    } else if k > 1 {
      ExportsComplete(data, t, k - 1, 0);
    }
  }

  // ---- The whole image -----------------------------------------------------------------

  function ExportsOf(data: Text, end: nat, tables: seq<Text>): Option<seq<Text>>
    requires forall c :: c in tables ==> |c| == 24
  {
    if tables == [] then Some([])
    else if |tables| > 1 || !TableInside(TableOf(tables[0]), end, |data|) then None
    else Exports(data, TableOf(tables[0]), TableOf(tables[0]).count)
  }

  /** What an image with the given commands declares. */
  function Declared(data: Text, end: nat, cmds: seq<Text>): Option<Metadata>
  {
    var ids := Names(cmds, InstallId);
    match ExportsOf(data, end, Tables(cmds))
    case None => None
    case Some(exports) =>
      if |ids| != 1 then None
      else Some(Metadata(ids[0], Names(cmds, Dependency), Names(cmds, Rpath), exports))
  }

  function Described(data: Text, end: nat, count: nat): Option<Metadata>
    requires 32 <= end <= |data|
  {
    match Split(data[32..end], count)
    case None => None
    case Some(cmds) => if CommandsOk(cmds) then Declared(data, end, cmds) else None
  }

  function Inspected(data: Text, architecture: Architecture): Option<Metadata> {
    if HeaderOk(data, architecture) then Described(data, 32 + U32(data, 20), U32(data, 16)) else None
  }

  /**
   An image is accepted exactly when its header is right and the bytes after it are some list of
   well-formed commands, as many and as long as the header says, that declare the metadata.
   */
  lemma InspectedLayout(data: Text, architecture: Architecture, m: Metadata)
    ensures Inspected(data, architecture) == Some(m) <==>
            && HeaderOk(data, architecture)
            && exists cmds ::
                 && CommandsOk(cmds) && |cmds| == U32(data, 16)
                 && Flatten(cmds) == data[32..32 + U32(data, 20)]
                 && Declared(data, 32 + U32(data, 20), cmds) == Some(m)
  {
    if HeaderOk(data, architecture) {
      var body := data[32..32 + U32(data, 20)];
      forall cmds | CommandsOk(cmds) && Flatten(cmds) == body && |cmds| == U32(data, 16)
        ensures Split(body, |cmds|) == Some(cmds)
      {
        SplitFlatten(cmds);
      }
    }
  }

  // ---- The single pass -----------------------------------------------------------------

  function Prefixed(done: seq<Text>, rest: Option<seq<Text>>): Option<seq<Text>> {
    match rest
    case None => None
    case Some(cmds) => Some(done + cmds)
  }

  /** Where the pass stands: `done` has been read and `left` commands remain to be cut from the region. */
  ghost predicate Reading(data: Text, end: nat, count: nat, offset: nat, done: seq<Text>, left: nat) {
    && 32 <= offset <= end <= |data| && CommandsOk(done)
    && Split(data[32..end], count) == Prefixed(done, Split(data[offset..end], left))
  }

  /** The command that starts at `offset` fits and states its length. */
  predicate Fits(data: Text, offset: nat, end: nat)
    requires end <= |data|
  {
    offset + 8 <= end && var size := U32(data, offset + 4); size >= 8 && size % 8 == 0 && size <= end - offset
  }

  function CommandAt(data: Text, offset: nat, end: nat): (c: Text)
    requires end <= |data| && Fits(data, offset, end)
  {
    data[offset..offset + U32(data, offset + 4)]
  }

  lemma CommandAtSized(data: Text, offset: nat, end: nat)
    requires end <= |data| && Fits(data, offset, end)
    ensures var c := CommandAt(data, offset, end); Sized(c) && U32(c, 0) == U32(data, offset)
  {
    SubField(data, offset, offset + U32(data, offset + 4), 4);
    SubField(data, offset, offset + U32(data, offset + 4), 0);
  }

  lemma SplitAt(data: Text, offset: nat, end: nat, n: nat)
    requires end <= |data| && offset <= end && n > 0
    ensures !Fits(data, offset, end) ==> Split(data[offset..end], n) == None
    ensures Fits(data, offset, end) ==>
              var c := CommandAt(data, offset, end);
              Split(data[offset..end], n) == Prefixed([c], Split(data[offset + |c|..end], n - 1))
  {
    var rest := data[offset..end];
    if |rest| >= 8 {
      SubField(data, offset, end, 4);
      var size := U32(rest, 4);
      if Fits(data, offset, end) {
        assert rest[..size] == data[offset..offset + size] && rest[size..] == data[offset + size..end];
      }
    }
  }

  lemma ReadingExtends(data: Text, end: nat, count: nat, offset: nat, next: nat, done: seq<Text>, c: Text, left: nat)
    requires Reading(data, end, count, offset, done, left) && left > 0 && offset <= next <= end
    requires Split(data[offset..end], left) == Prefixed([c], Split(data[next..end], left - 1))
    ensures CommandOk(c) ==> Reading(data, end, count, next, done + [c], left - 1)
    ensures !CommandOk(c) ==> Described(data, end, count) == None
  {
    PrefixedAssociates(done, c, Split(data[next..end], left - 1));
  }

  lemma ReadingStep(data: Text, end: nat, count: nat, offset: nat, done: seq<Text>, left: nat)
    requires left > 0 && Reading(data, end, count, offset, done, left)
    ensures !Fits(data, offset, end) ==> Described(data, end, count) == None
    ensures Fits(data, offset, end) ==>
              var c := CommandAt(data, offset, end);
              && Sized(c) && U32(c, 0) == U32(data, offset)
              && (CommandOk(c) ==> Reading(data, end, count, offset + |c|, done + [c], left - 1))
              && (!CommandOk(c) ==> Described(data, end, count) == None)
  {
    SplitAt(data, offset, end, left);
    if Fits(data, offset, end) {
      var c := CommandAt(data, offset, end);
      CommandAtSized(data, offset, end);
      ReadingExtends(data, end, count, offset, offset + |c|, done, c, left);
    }
  }

  lemma PrefixedAssociates(done: seq<Text>, c: Text, tail: Option<seq<Text>>)
    ensures Prefixed(done, Prefixed([c], tail)) == Prefixed(done + [c], tail)
    ensures tail.Some? ==> c in Prefixed(done + [c], tail).value
  {
    if tail.Some? {
      assert done + ([c] + tail.value) == (done + [c]) + tail.value;
      assert (done + [c])[|done|] == c;
    }
  }

  /** A second symbol table condemns the image, whatever follows it. */
  lemma SecondTable(data: Text, end: nat, count: nat, offset: nat, done: seq<Text>, left: nat)
    requires Reading(data, end, count, offset, done, left) && |Tables(done)| > 1
    ensures Described(data, end, count) == None
  {
    hide Names, Tables, Split, CommandOk;
    if Split(data[offset..end], left).Some? {
      NamesAppend(done, Split(data[offset..end], left).value, Dependency);
    }
  }

  /** The NUL-terminated text at the start of `raw`. */
  method ReadText(raw: Text) returns (r: Result<Text>)
    ensures r.Found() == NameIn(raw)
  {
    hide ValidUtf8, Find, Trail, CharLength;
    var terminal := Find(raw, 0);
    if terminal < 0 { return Refused(UnterminatedString); }
    var value := raw[..terminal];
    if !ValidUtf8(value) { return Refused(NotUtf8); }
    if value == [] || 10 in value || 13 in value { return Refused(InvalidText); }
    return Accepted(value);
  }

  /** The name carried by the dylib or rpath command at `offset`. */
  method ReadName(data: Text, offset: nat, end: nat) returns (r: Result<Text>)
    requires end <= |data| && Fits(data, offset, end)
    ensures r.Found() == NameOf(CommandAt(data, offset, end))
  {
    hide U32, ValidUtf8, Find, Trail, CharLength;
    var command, size := U32(data, offset), U32(data, offset + 4);
    ghost var c := CommandAt(data, offset, end);
    SubField(data, offset, offset + size, 0);
    var minimum := if command == LC_RPATH then 12 else 24;
    if size < minimum { return Refused(TruncatedPathCommand); }
    var start := U32(data, offset + 8);
    SubField(data, offset, offset + size, 8);
    if !(minimum <= start < size) { return Refused(StringOffset); }
    var raw := data[offset + start..offset + size];
    assert raw == c[start..] && NameOf(c) == NameIn(raw);
    r := ReadText(raw);
  }

  /** The name of symbol `index`. */
  method ReadSymbol(data: Text, t: Table, index: nat) returns (r: Result<Text>)
    requires index < t.count && TableInside(t, 0, |data|)
    ensures r.Found() == SymbolName(data, t, index)
  {
    hide U32, ValidUtf8, Find;
    var name := U32(data, t.symbols + 16 * index);
    if name >= t.stringBytes { return Refused(SymbolNameBounds); }
    var raw := data[t.strings + name..t.strings + t.stringBytes];
    var finish := Find(raw, 0);
    if finish < 0 { return Refused(UnterminatedSymbolName); }
    var value := raw[..finish];
    assert CString(raw) == Some(value);
    if !ValidUtf8(value) { return Refused(NotUtf8); }
    return Accepted(value);
  }

  /** The public symbol names of a table that was found among the commands. */
  method ReadExports(data: Text, end: nat, t: Table) returns (r: Result<seq<Text>>)
    ensures r.Found() == if TableInside(t, end, |data|) then Exports(data, t, t.count) else None
  {
    hide IsPublic, SymbolName;
    if t.symbols < end || t.count > (|data| - t.symbols) / 16 || t.strings < end || t.stringBytes > |data| - t.strings {
      return Refused(SymbolTableBounds);
    }
    var exports: seq<Text> := [];
    for index := 0 to t.count
      invariant Exports(data, t, index) == Some(exports)
    {
      var kind := data[t.symbols + 16 * index + 4];
      if IsPublic(kind) {
        var name := ReadSymbol(data, t, index);
        if name.Refused? {
          ExportsFail(data, t, index + 1, t.count);
          return Refused(name.problem);
        }
        exports := exports + [name.value];
      }
    }
    return Accepted(exports);
  }

  method Inspect(data: Text, architecture: Architecture) returns (r: Result<Metadata>)
    ensures r.Found() == Inspected(data, architecture)
  {
    hide CommandOk, Split, Described, NameOf, U32, ValidUtf8, Names, Named, Tables, TableIn, Reading;
    hide TableInside, Exports;
    hide Prefixed, Cpu, NameText;
    if !(32 <= |data| <= MAX_IMAGE) { return Refused(ImageSize); }
    var count, commandBytes := U32(data, 16), U32(data, 20);
    if U32(data, 0) != MAGIC || U32(data, 4) != Cpu(architecture) || U32(data, 12) != MH_DYLIB {
      return Refused(NotThinDylib);
    }
    if count > MAX_COMMANDS || commandBytes > |data| - 32 { return Refused(CommandBounds); }
    var end, offset := 32 + commandBytes, 32;
    var dependencies, paths, identifiers: seq<Text> := [], [], [];
    var symbolTable: Option<Table> := None;
    ghost var done: seq<Text> := [];
    ReadingStarts(data, end, count);
    NamesNil(InstallId);
    NamesNil(Dependency);
    NamesNil(Rpath);
    for unused := 0 to count
      invariant 32 <= offset <= end && CommandsOk(done) && Reading(data, end, count, offset, done, count - unused)
      invariant identifiers == Names(done, InstallId)
      invariant dependencies == Names(done, Dependency) && paths == Names(done, Rpath)
      invariant symbolTable == None <==> Tables(done) == []
      invariant symbolTable.Some? ==> |Tables(done)| == 1 && TableOf(Tables(done)[0]) == symbolTable.value
    {
      ReadingStep(data, end, count, offset, done, count - unused);
      if offset + 8 > end { return Refused(TruncatedCommand); }
      var command, size := U32(data, offset), U32(data, offset + 4);
      if size < 8 || size % 8 != 0 || size > end - offset { return Refused(InvalidCommandSize); }
      ghost var c := CommandAt(data, offset, end);
      CommandOkMeans(c);
      if CommandOk(c) { CommandSays(c); }
      if command == LC_SYMTAB {
        if size != 24 || symbolTable != None {
          if CommandOk(c) {
            Extend(done, c, InstallId);
            SecondTable(data, end, count, offset + size, done + [c], count - unused - 1);
          }
          return Refused(InvalidSymbolTableCommand);
        }
        TableField(data, offset);
        symbolTable := Some(Table(U32(data, offset + 8), U32(data, offset + 12),
                                  U32(data, offset + 16), U32(data, offset + 20)));
      }
      if RoleOf(command) != None {
        var name := ReadName(data, offset, end);
        if name.Refused? { return Refused(name.problem); }
        if command == LC_ID_DYLIB {
          identifiers := identifiers + [name.value];
        } else if command == LC_RPATH {
          paths := paths + [name.value];
        } else {
          dependencies := dependencies + [name.value];
        }
      }
      Extend(done, c, InstallId);
      Extend(done, c, Dependency);
      Extend(done, c, Rpath);
      offset := offset + size;
      done := done + [c];
    }
    ReadingEnds(data, end, count, offset, done);
    if offset != end || |identifiers| != 1 { return Refused(SizeOrIdMismatch); }
    var exports: seq<Text> := [];
    if symbolTable != None {
      var found := ReadExports(data, end, symbolTable.value);
      if found.Refused? { return Refused(found.problem); }
      exports := found.value;
    }
    return Accepted(Metadata(identifiers[0], dependencies, paths, exports));
  }

  lemma ReadingStarts(data: Text, end: nat, count: nat)
    requires 32 <= end <= |data|
    ensures Reading(data, end, count, 32, [], count)
  {
    match Split(data[32..end], count) { case None => case Some(all) => assert [] + all == all; }
  }

  lemma ReadingEnds(data: Text, end: nat, count: nat, offset: nat, done: seq<Text>)
    requires Reading(data, end, count, offset, done, 0)
    ensures Described(data, end, count) == if offset == end then Declared(data, end, done) else None
  {
    assert done + [] == done;
  }

  lemma CommandSays(c: Text)
    requires CommandOk(c)
    ensures TableIn(c) == if U32(c, 0) == LC_SYMTAB then [c] else []
    ensures forall role :: Named(c, role) == if RoleOf(U32(c, 0)) == Some(role) then [NameOf(c).value] else []
  {
    hide U32, NameOf;
  }

  lemma CommandOkMeans(c: Text)
    requires Sized(c)
    ensures CommandOk(c) <==> (U32(c, 0) == LC_SYMTAB ==> |c| == 24) && (RoleOf(U32(c, 0)).Some? ==> NameOf(c).Some?)
  {
  }

  lemma TableField(data: Text, offset: nat)
    requires offset + 24 <= |data|
    ensures TableOf(data[offset..offset + 24]) ==
            Table(U32(data, offset + 8), U32(data, offset + 12), U32(data, offset + 16), U32(data, offset + 20))
  {
    SubField(data, offset, offset + 24, 8);
    SubField(data, offset, offset + 24, 12);
    SubField(data, offset, offset + 24, 16);
    SubField(data, offset, offset + 24, 20);
  }

  lemma {:induction false} ExportsFail(data: Text, t: Table, k: nat, n: nat)
    requires k <= n <= t.count && TableInside(t, 0, |data|) && Exports(data, t, k) == None
    ensures Exports(data, t, n) == None
    decreases n
  {
    if k < n { ExportsFail(data, t, k, n - 1); }
  }
}
