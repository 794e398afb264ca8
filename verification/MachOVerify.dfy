/** The packaging rule: one Mac JNI library, self-contained, private and canonically named. */
module MachOVerify {
  import opened Bytes
  import opened MachO
  import opened MachOImage

  const SLASH: byte := 0x2F

  /** `libdatachannel-java.dylib` */
  function MainName(): Text { Ascii("libdatachannel-java.dylib") }

  /** `@loader_path/` */
  function LoaderPrefix(): Text { LoaderPath() + [SLASH] }

  function UsrLib(): Text { Ascii("/usr/lib/") }
  function Frameworks(): Text { Ascii("/System/Library/Frameworks/") }

  function LibCpp(): Text { Ascii("libc++") }
  function LibSsl(): Text { Ascii("libssl") }
  function LibCrypto(): Text { Ascii("libcrypto") }
  function Mimalloc(): Text { Ascii("mimalloc") }

  predicate Contains(s: Text, needle: Text) {
    exists i :: 0 <= i <= |s| && needle <= s[i..]
  }

  /** ASCII lower case; no other character lowers to one of the letters searched for here. */
  function Lower(s: Text): (r: Text)
    ensures |r| == |s|
  {
    seq(|s|, i requires 0 <= i < |s| => if 0x41 <= s[i] <= 0x5A then s[i] + 0x20 else s[i])
  }

  /** `rsplit('/', 1)[-1]`: what follows the last slash. */
  function Basename(s: Text): (r: Text)
    ensures SLASH !in r && |r| <= |s| && s[|s| - |r|..] == r
    ensures |r| < |s| ==> s[|s| - |r| - 1] == SLASH
  {
    if SLASH !in s then s
    else
      var k := Find(s, SLASH);
      var r := Basename(s[k + 1..]);
      assert s[k + 1..][|s| - k - 1 - |r|..] == s[|s| - |r|..];
      r
  }

  predicate JniEntry(symbol: Text) {
    || Ascii("_Java_") <= symbol
    || symbol == Ascii("_JNI_OnLoad") || symbol == Ascii("_JNI_OnUnload") || symbol == Ascii("_get_jni_env_from_jvm")
  }

  /** The base name is that of a library the JNI must embed. */
  predicate NamesEmbedded(dependency: Text) {
    var base := Basename(dependency);
    || Contains(base, LibCpp())
    || Contains(Lower(base), LibSsl()) || Contains(Lower(base), LibCrypto()) || Contains(Lower(base), Mimalloc())
  }

  /** The loader finds the dependency in the system or in the package itself. */
  predicate Resolves(dependency: Text, rpaths: seq<Text>) {
    || UsrLib() <= dependency || Frameworks() <= dependency
    || dependency == LoaderPrefix() + MainName()
    || (dependency == RpathPrefix() + MainName() && LoaderPath() in rpaths)
  }

  predicate Compliant(m: Metadata) {
    && m.exports != [] && (forall e :: e in m.exports ==> JniEntry(e))
    && m.id == RpathPrefix() + MainName()
    && forall d :: d in m.dependencies ==> !NamesEmbedded(d) && Resolves(d, m.rpaths)
  }

  datatype Verdict =
    | Pass | MissingLibrary | UnexpectedLibrary | Unreadable(problem: Problem)
    | MissingExports | ForeignExport(symbol: Text)
    | NoncanonicalName | SharedCppRuntime(dependency: Text) | SharedPrivateLibrary(dependency: Text)
    | Nonportable(dependency: Text) | Unclosed(dependency: Text) | NoLoaderPath

  /** The test of one dependency, in the tool's order. */
  method CheckDependency(dependency: Text, rpaths: seq<Text>) returns (v: Verdict)
    ensures v == Pass <==> !NamesEmbedded(dependency) && Resolves(dependency, rpaths)
  {
    hide RpathPrefix, LoaderPath, LoaderPrefix, MainName, UsrLib, Frameworks, LibCpp, LibSsl, LibCrypto;
    hide Mimalloc, Lower, Contains, Find;
    var base := Basename(dependency);
    if Contains(base, LibCpp()) { return SharedCppRuntime(dependency); }
    if Contains(Lower(base), LibSsl()) || Contains(Lower(base), LibCrypto()) || Contains(Lower(base), Mimalloc()) {
      return SharedPrivateLibrary(dependency);
    }
    if UsrLib() <= dependency || Frameworks() <= dependency { return Pass; }
    Siblings(dependency, RpathPrefix());
    Siblings(dependency, LoaderPrefix());
    PrefixesDiffer(dependency);
    if !(RpathPrefix() <= dependency || LoaderPrefix() <= dependency) { return Nonportable(dependency); }
    var sibling := dependency[Find(dependency, SLASH) + 1..];
    if SLASH in sibling || sibling != MainName() { return Unclosed(dependency); }
    if RpathPrefix() <= dependency && LoaderPath() !in rpaths { return NoLoaderPath; }
    return Pass;
  }

  /** A packaged dependency is its prefix, up to the only slash, and the main library's name. */
  lemma Siblings(dependency: Text, prefix: Text)
    requires prefix == RpathPrefix() || prefix == LoaderPrefix()
    ensures dependency == prefix + MainName() <==>
            prefix <= dependency && dependency[Find(dependency, SLASH) + 1..] == MainName()
  {
    if prefix <= dependency {
      var k := Find(dependency, SLASH);
      assert prefix[|prefix| - 1] == SLASH && forall j :: 0 <= j < |prefix| - 1 ==> prefix[j] != SLASH;
      assert forall j :: 0 <= j < |prefix| ==> dependency[j] == prefix[j];
      assert k == |prefix| - 1 && dependency == prefix + dependency[k + 1..];
    }
  }

  lemma PrefixesDiffer(dependency: Text)
    ensures SLASH !in MainName() && !(RpathPrefix() <= dependency && LoaderPrefix() <= dependency)
  {
    assert RpathPrefix()[1] == 0x72 && LoaderPrefix()[1] == 0x6C;
  }

  method Verify(binaries: map<Text, Text>, architecture: Architecture) returns (v: Verdict)
    ensures v == Pass <==>
            && binaries.Keys == {MainName()}
            && exists m :: Inspected(binaries[MainName()], architecture) == Some(m) && Compliant(m)
  {
    hide RpathPrefix, MainName, JniEntry, NamesEmbedded, Resolves, Inspected;
    if MainName() !in binaries { return MissingLibrary; }
    if binaries.Keys != {MainName()} { return UnexpectedLibrary; }
    var decoded := Inspect(binaries[MainName()], architecture);
    if decoded.Refused? { return Unreadable(decoded.problem); }
    var m := decoded.value;
    if m.exports == [] { return MissingExports; }
    for i := 0 to |m.exports|
      invariant forall j :: 0 <= j < i ==> JniEntry(m.exports[j])
    {
      if !JniEntry(m.exports[i]) { return ForeignExport(m.exports[i]); }
    }
    if m.id != RpathPrefix() + MainName() { return NoncanonicalName; }
    for i := 0 to |m.dependencies|
      invariant forall j :: 0 <= j < i ==> !NamesEmbedded(m.dependencies[j]) && Resolves(m.dependencies[j], m.rpaths)
    {
      var found := CheckDependency(m.dependencies[i], m.rpaths);
      if found != Pass { return found; }
    }
    return Pass;
  }

  /**
   What acceptance means for the bytes: the image has a symbol table, and every entry of it that is
   external, defined and neither debug nor private names a JNI entry point. None is skipped.
   */
  lemma CompliantIsPrivate(data: Text, architecture: Architecture, m: Metadata)
    requires Inspected(data, architecture) == Some(m) && Compliant(m)
    ensures exists cmds ::
              && Flatten(cmds) == data[32..32 + U32(data, 20)] && CommandsOk(cmds) && |Tables(cmds)| == 1
              && var t := TableOf(Tables(cmds)[0]);
                 && TableInside(t, 0, |data|)
                 && forall i :: 0 <= i < t.count && data[t.symbols + 16 * i + 4] in {3, 5, 7, 9, 11, 13, 15} ==>
                      SymbolName(data, t, i).Some? && JniEntry(SymbolName(data, t, i).value)
  {
    hide U32, CommandOk, JniEntry, SymbolName, IsPublic, Exports, Names, Tables, NamesEmbedded, Resolves;
    hide NameText, MainName, RpathPrefix, Inspected, HeaderOk;
    InspectedLayout(data, architecture, m);
    var cmds :| CommandsOk(cmds) && |cmds| == U32(data, 16) && Flatten(cmds) == data[32..32 + U32(data, 20)]
                && Declared(data, 32 + U32(data, 20), cmds) == Some(m);
    var t := TableOf(Tables(cmds)[0]);
    forall i | 0 <= i < t.count && data[t.symbols + 16 * i + 4] in {3, 5, 7, 9, 11, 13, 15}
      ensures SymbolName(data, t, i).Some? && JniEntry(SymbolName(data, t, i).value)
    {
      PublicKinds(data[t.symbols + 16 * i + 4]);
      ExportsComplete(data, t, t.count, i);
    }
  }
}
