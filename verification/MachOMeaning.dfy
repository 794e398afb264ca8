/**
 The Mach-O check once more, as one statement about bytes in the loader's own numbers. It shares only
 byte fields and UTF-8 with the reader, and is proved equivalent to what the reader accepts.
 */
module MachOMeaning {
  import opened Bytes
  import opened MachO

  // ---- Commands ------------------------------------------------------------------------

  /** The command's text runs from the offset in its third word to the first NUL. */
  ghost predicate Holds(c: Text, name: Text) {
    |c| >= 12 && U32(c, 8) <= |c| && 0 !in name && name + [0] <= c[U32(c, 8)..]
  }

  /** The commands of some kinds, in file order. */
  function OfKinds(cmds: seq<Text>, kinds: set<nat>): (some: seq<Text>) {
    if cmds == [] then []
    else
      var init, last := cmds[..|cmds| - 1], cmds[|cmds| - 1];
      OfKinds(init, kinds) + if |last| >= 8 && U32(last, 0) in kinds then [last] else []
  }

  ghost predicate HaveNames(cmds: seq<Text>, names: seq<Text>) {
    |cmds| == |names| && forall i :: 0 <= i < |cmds| ==> Holds(cmds[i], names[i])
  }

  /** LC_ID_DYLIB; LC_LOAD_DYLIB with its weak, re-exporting and upward forms; LC_RPATH; LC_SYMTAB. */
  function Kinds(role: Role): set<nat> {
    match role
    case InstallId => {0xD}
    case Dependency => {0xC, 0x80000018, 0x8000001F, 0x80000023}
    case Rpath => {0x8000001C}
  }

  /** The text a dylib or run path command must hold, after a header of `least` bytes. */
  ghost predicate TextOk(c: Text, least: nat) {
    && |c| >= least >= 12 && least <= U32(c, 8) < |c|
    && exists name :: Holds(c, name) && name != [] && ValidUtf8(name) && 10 !in name && 13 !in name
  }

  ghost predicate Legal(c: Text) {
    && |c| >= 8 && |c| % 8 == 0 && U32(c, 4) == |c|
    && (U32(c, 0) == 0x2 ==> |c| == 24)
    && (U32(c, 0) in {0xC, 0xD, 0x80000018, 0x8000001F, 0x80000023} ==> TextOk(c, 24))
    && (U32(c, 0) == 0x8000001C ==> TextOk(c, 12))
  }

  lemma RoleKinds(kind: nat, role: Role)
    ensures RoleOf(kind) == Some(role) <==> kind in Kinds(role)
    ensures RoleOf(kind).Some? <==> kind in {0xC, 0xD, 0x80000018, 0x8000001F, 0x80000023, 0x8000001C}
  {
  }

  /** A name the reader finds is the text the command holds, and there is only one. */
  lemma NameHeld(c: Text, name: Text)
    requires |c| >= 8
    ensures NameOf(c) == Some(name) <==>
            && |c| >= Minimum(U32(c, 0)) && Minimum(U32(c, 0)) <= U32(c, 8) < |c|
            && Holds(c, name) && NameText(name)
  {
    hide U32, Find, NameText;
    if |c| >= Minimum(U32(c, 0)) && Minimum(U32(c, 0)) <= U32(c, 8) < |c| {
      var raw := c[U32(c, 8)..];
      if Holds(c, name) { CStringUnique(raw, name); }
    }
  }

  lemma LegalIff(c: Text)
    ensures CommandOk(c) <==> Legal(c)
  {
    hide U32, NameOf, ValidUtf8, Holds;
    if Sized(c) {
      RoleKinds(U32(c, 0), Rpath);
      forall name ensures NameOf(c) == Some(name) <==>
          && |c| >= Minimum(U32(c, 0)) && Minimum(U32(c, 0)) <= U32(c, 8) < |c|
          && Holds(c, name) && NameText(name)
      {
        NameHeld(c, name);
      }
    }
  }

  lemma HeldOnce(c: Text, a: Text, b: Text)
    requires Holds(c, a) && Holds(c, b)
    ensures a == b
  {
    CStringUnique(c[U32(c, 8)..], a);
    CStringUnique(c[U32(c, 8)..], b);
  }

  lemma HeldUnique(cmds: seq<Text>, a: seq<Text>, b: seq<Text>)
    requires HaveNames(cmds, a) && HaveNames(cmds, b)
    ensures a == b
  {
    hide Holds;
    forall i | 0 <= i < |cmds| ensures a[i] == b[i] { HeldOnce(cmds[i], a[i], b[i]); }
  }

  lemma NamedHeld(c: Text, role: Role)
    requires CommandOk(c)
    ensures HaveNames(if U32(c, 0) in Kinds(role) then [c] else [], Named(c, role))
  {
    hide U32, Kinds, NameText, ValidUtf8;
    RoleKinds(U32(c, 0), role);
    if NameOf(c).Some? { NameHeld(c, NameOf(c).value); }
  }

  /** The reader's list for a role is the texts of that role's commands, in file order. */
  lemma {:induction false} NamesHeld(cmds: seq<Text>, role: Role)
    requires CommandsOk(cmds)
    ensures HaveNames(OfKinds(cmds, Kinds(role)), Names(cmds, role))
  {
    hide U32, Holds, Kinds, Named, NameText;
    if cmds != [] {
      assert cmds[|cmds| - 1] in cmds && forall d :: d in cmds[..|cmds| - 1] ==> d in cmds;
      NamesHeld(cmds[..|cmds| - 1], role);
      NamedHeld(cmds[|cmds| - 1], role);
    }
  }

  lemma {:induction false} TablesAre(cmds: seq<Text>)
    requires CommandsOk(cmds)
    ensures Tables(cmds) == OfKinds(cmds, {0x2})
  {
    hide U32, NameOf;
    if cmds != [] {
      assert cmds[|cmds| - 1] in cmds && forall d :: d in cmds[..|cmds| - 1] ==> d in cmds;
      TablesAre(cmds[..|cmds| - 1]);
    }
  }

  // ---- Symbols -------------------------------------------------------------------------

  /** The table's external, defined entries below `k` that are neither debug nor private, in order. */
  function PublicEntries(data: Text, symbols: nat, k: nat): (entries: seq<nat>)
    requires symbols + 16 * k <= |data|
    ensures forall i :: 0 <= i < |entries| ==> entries[i] < k
  {
    if k == 0 then []
    else
      PublicEntries(data, symbols, k - 1)
      + if data[symbols + 16 * (k - 1) + 4] in {3, 5, 7, 9, 11, 13, 15} then [k - 1] else []
  }

  /** Entry `i` names the NUL-terminated UTF-8 text `name` inside the string pool. */
  ghost predicate EntryHolds(data: Text, symbols: nat, strings: nat, bytes: nat, i: nat, name: Text)
    requires symbols + 16 * i + 16 <= |data| && strings + bytes <= |data|
  {
    var at := U32(data, symbols + 16 * i);
    at < bytes && 0 !in name && ValidUtf8(name) && name + [0] <= data[strings + at..strings + bytes]
  }

  ghost predicate EntriesHold(data: Text, t: Table, k: nat, names: seq<Text>)
    requires k <= t.count && t.symbols + 16 * t.count <= |data| && t.strings + t.stringBytes <= |data|
  {
    var entries := PublicEntries(data, t.symbols, k);
    && |names| == |entries|
    && forall j :: 0 <= j < |entries| ==> EntryHolds(data, t.symbols, t.strings, t.stringBytes, entries[j], names[j])
  }

  lemma SymbolHeld(data: Text, t: Table, i: nat, name: Text)
    requires i < t.count && TableInside(t, 0, |data|)
    ensures SymbolName(data, t, i) == Some(name) <==> EntryHolds(data, t.symbols, t.strings, t.stringBytes, i, name)
  {
    hide U32, Find, ValidUtf8;
    var at := U32(data, t.symbols + 16 * i);
    if at < t.stringBytes {
      var raw := data[t.strings + at..t.strings + t.stringBytes];
      if 0 !in name && name + [0] <= raw { CStringUnique(raw, name); }
    }
  }

  lemma {:induction false} ExportsHeld(data: Text, t: Table, k: nat, names: seq<Text>)
    requires k <= t.count && TableInside(t, 0, |data|)
    ensures Exports(data, t, k) == Some(names) <==> EntriesHold(data, t, k, names)
  {
    hide SymbolName, EntryHolds, IsPublic;
    if k > 0 {
      PublicKinds(data[t.symbols + 16 * (k - 1) + 4]);
      if PublicAt(data, t, k - 1) {
        if names != [] {
          var init, last := names[..|names| - 1], names[|names| - 1];
          ExportsHeld(data, t, k - 1, init);
          SymbolHeld(data, t, k - 1, last);
          assert names == init + [last];
        }
      } else {
        ExportsHeld(data, t, k - 1, names);
      }
    }
  }

  // ---- The whole image -----------------------------------------------------------------

  ghost predicate HeaderSays(data: Text, architecture: Architecture) {
    && 32 <= |data| <= 33554432
    && U32(data, 0) == 0xFEEDFACF && U32(data, 12) == 6
    && U32(data, 4) == (if architecture.Arm64? then 0x0100000C else 0x01000007)
    && U32(data, 16) <= 4096 && 32 + U32(data, 20) <= |data|
  }

  /** The exports of the one symbol table command, if there is one. */
  ghost predicate ExportsSay(data: Text, end: nat, tables: seq<Text>, exports: seq<Text>) {
    if tables == [] then exports == []
    else
      && |tables| == 1 && |tables[0]| == 24
      && var t := Table(U32(tables[0], 8), U32(tables[0], 12), U32(tables[0], 16), U32(tables[0], 20));
         && end <= t.symbols && t.symbols + 16 * t.count <= |data|
         && end <= t.strings && t.strings + t.stringBytes <= |data|
         && EntriesHold(data, t, t.count, exports)
  }

  /** The bytes after the header are `cmds`, and these declare `m`. */
  ghost predicate CommandsSay(data: Text, cmds: seq<Text>, m: Metadata)
    requires |data| >= 32
  {
    && |cmds| == U32(data, 16) && 32 + U32(data, 20) <= |data|
    && Flatten(cmds) == data[32..32 + U32(data, 20)]
    && (forall c :: c in cmds ==> Legal(c))
    && HaveNames(OfKinds(cmds, {0xD}), [m.id])
    && HaveNames(OfKinds(cmds, {0xC, 0x80000018, 0x8000001F, 0x80000023}), m.dependencies)
    && HaveNames(OfKinds(cmds, {0x8000001C}), m.rpaths)
    && ExportsSay(data, 32 + U32(data, 20), OfKinds(cmds, {0x2}), m.exports)
  }

  lemma ExportsSaid(data: Text, end: nat, cmds: seq<Text>, exports: seq<Text>)
    requires CommandsOk(cmds)
    ensures ExportsOf(data, end, Tables(cmds)) == Some(exports) <==>
            ExportsSay(data, end, OfKinds(cmds, {0x2}), exports)
  {
    hide U32, CommandOk, Exports, EntriesHold, OfKinds, Tables;
    TablesAre(cmds);
    var tables := Tables(cmds);
    if |tables| == 1 {
      var t := TableOf(tables[0]);
      if TableInside(t, end, |data|) { ExportsHeld(data, t, t.count, exports); }
    }
  }

  lemma DeclaredSays(data: Text, end: nat, cmds: seq<Text>, m: Metadata)
    requires CommandsOk(cmds)
    ensures Declared(data, end, cmds) == Some(m) <==>
            && HaveNames(OfKinds(cmds, Kinds(InstallId)), [m.id])
            && HaveNames(OfKinds(cmds, Kinds(Dependency)), m.dependencies)
            && HaveNames(OfKinds(cmds, Kinds(Rpath)), m.rpaths)
            && ExportsSay(data, end, OfKinds(cmds, {0x2}), m.exports)
  {
    hide CommandOk, ExportsOf, ExportsSay, OfKinds, Tables, Names, Holds, NameText, Kinds;
    NamesHeld(cmds, InstallId);
    NamesHeld(cmds, Dependency);
    NamesHeld(cmds, Rpath);
    ExportsSaid(data, end, cmds, m.exports);
    var ids, dependencies, rpaths := Names(cmds, InstallId), Names(cmds, Dependency), Names(cmds, Rpath);
    if HaveNames(OfKinds(cmds, Kinds(InstallId)), [m.id]) { HeldUnique(OfKinds(cmds, Kinds(InstallId)), ids, [m.id]); }
    if HaveNames(OfKinds(cmds, Kinds(Dependency)), m.dependencies) {
      HeldUnique(OfKinds(cmds, Kinds(Dependency)), dependencies, m.dependencies);
    }
    if HaveNames(OfKinds(cmds, Kinds(Rpath)), m.rpaths) {
      HeldUnique(OfKinds(cmds, Kinds(Rpath)), rpaths, m.rpaths);
    }
    if |ids| == 1 { assert ids == [ids[0]]; }
  }

  lemma CommandsSaid(data: Text, cmds: seq<Text>, m: Metadata)
    requires 32 <= |data| && 32 + U32(data, 20) <= |data|
    ensures CommandsSay(data, cmds, m) <==>
            && CommandsOk(cmds) && |cmds| == U32(data, 16) && Flatten(cmds) == data[32..32 + U32(data, 20)]
            && Declared(data, 32 + U32(data, 20), cmds) == Some(m)
  {
    hide U32, CommandOk, Legal, Declared, ExportsSay, OfKinds, HaveNames;
    forall c ensures CommandOk(c) <==> Legal(c) { LegalIff(c); }
    if CommandsOk(cmds) { DeclaredSays(data, 32 + U32(data, 20), cmds, m); }
  }

  /**
   The reader accepts an image with a result exactly when the header says so and some cut of the bytes
   after it into legal commands has exactly the result's texts, in order: of the one identifier, of the
   commands of all four dependency kinds, of the run path commands, and of the public symbols.
   */
  lemma InspectedMeans(data: Text, architecture: Architecture, m: Metadata)
    ensures Inspected(data, architecture) == Some(m) <==>
            HeaderSays(data, architecture) && exists cmds :: CommandsSay(data, cmds, m)
  {
    hide U32, CommandsSay, CommandOk, Declared, Inspected;
    InspectedLayout(data, architecture, m);
    if HeaderSays(data, architecture) {
      forall cmds ensures CommandsSay(data, cmds, m) <==>
          && CommandsOk(cmds) && |cmds| == U32(data, 16) && Flatten(cmds) == data[32..32 + U32(data, 20)]
          && Declared(data, 32 + U32(data, 20), cmds) == Some(m)
      {
        CommandsSaid(data, cmds, m);
      }
    }
  }

  /** No dependency is overlooked: whatever kind of dependency command a text stands in, it is reported. */
  lemma EveryDependencyReported(data: Text, cmds: seq<Text>, m: Metadata, c: Text)
    requires |data| >= 32 && CommandsSay(data, cmds, m)
    requires c in cmds && U32(c, 0) in {0xC, 0x80000018, 0x8000001F, 0x80000023}
    ensures exists name :: name in m.dependencies && Holds(c, name)
  {
    hide U32, Holds, TextOk, ExportsSay;
    KindListed(cmds, {0xC, 0x80000018, 0x8000001F, 0x80000023}, c);
    var some := OfKinds(cmds, {0xC, 0x80000018, 0x8000001F, 0x80000023});
    var i :| 0 <= i < |some| && some[i] == c;
    assert Holds(c, m.dependencies[i]);
  }

  lemma {:induction false} KindListed(cmds: seq<Text>, kinds: set<nat>, c: Text)
    requires c in cmds && |c| >= 8 && U32(c, 0) in kinds
    ensures c in OfKinds(cmds, kinds)
  {
    hide U32;
    if cmds[|cmds| - 1] != c { KindListed(cmds[..|cmds| - 1], kinds, c); }
  }
}
