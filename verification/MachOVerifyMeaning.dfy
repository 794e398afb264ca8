/** What the packaging rule demands, spelled out in bytes: no name, prefix or search is shared with its code. */
module MachOVerifyMeaning {
  import opened Bytes
  import opened MachO
  import MachOImage
  import opened MachOMeaning
  import opened MachOVerify

  // ---- Searching -----------------------------------------------------------------------

  /** `x` is the lower-case word `w`, except that letters may be capitals if `fold` says so. */
  ghost predicate Reads(x: Text, w: Text, fold: bool) {
    |x| == |w| && forall i :: 0 <= i < |w| ==> x[i] == w[i] || (fold && 0x61 <= w[i] <= 0x7A && x[i] == w[i] - 0x20)
  }

  /** The word stands at `x`, and there is no slash in it or after it. */
  ghost predicate WordAt(path: Text, w: Text, fold: bool, a: Text, x: Text, b: Text) {
    path == a + x + b && Reads(x, w, fold) && 0x2F !in x + b
  }

  /** The word stands somewhere after the last slash. */
  ghost predicate NamesWord(path: Text, w: Text, fold: bool) {
    exists a, x, b :: WordAt(path, w, fold, a, x, b)
  }

  lemma BaseOf(path: Text, a: Text, t: Text)
    requires path == a + t && SLASH !in t
    ensures |t| <= |Basename(path)| && Basename(path)[|Basename(path)| - |t|..] == t
  {
    hide Basename;
    var base := Basename(path);
    assert forall i :: 0 <= i < |t| ==> t[i] in t && path[|a| + i] == t[i];
    if |base| < |path| { assert path[|path| - |base| - 1] == SLASH; }
    assert path[|a|..] == t && path[|path| - |base|..] == base;
    assert base[|base| - |t|..] == path[|path| - |t|..];
  }

  /** The text that is searched, in lower case if capitals count. */
  function Searched(base: Text, fold: bool): (said: Text)
    ensures |said| == |base|
  {
    if fold then Lower(base) else base
  }

  predicate NoCapitals(w: Text) { forall i :: 0 <= i < |w| ==> !(0x41 <= w[i] <= 0x5A) }

  lemma ReadsFolded(x: Text, w: Text)
    requires NoCapitals(w)
    ensures Reads(x, w, true) <==> Lower(x) == w
  {
  }

  lemma LowerPart(base: Text, k: nat, n: nat)
    requires k + n <= |base|
    ensures Lower(base)[k..k + n] == Lower(base[k..k + n])
  {
  }

  /** The word read at position `k` is the word found there by the search. */
  lemma ReadsAt(base: Text, w: Text, fold: bool, k: nat)
    requires NoCapitals(w) && k + |w| <= |base|
    ensures Reads(base[k..k + |w|], w, fold) <==> w <= Searched(base, fold)[k..]
  {
    hide Lower, Reads;
    var x, said := base[k..k + |w|], Searched(base, fold);
    assert said[k..][..|w|] == said[k..k + |w|];
    if fold {
      ReadsFolded(x, w);
      LowerPart(base, k, |w|);
    } else {
      ReadsPlain(x, w);
    }
  }

  lemma ReadsPlain(x: Text, w: Text)
    ensures Reads(x, w, false) <==> x == w
  {
  }

  lemma ReadsLength(x: Text, w: Text, fold: bool)
    requires Reads(x, w, fold)
    ensures |x| == |w|
  {
  }

  lemma WordFound(path: Text, w: Text, fold: bool, a: Text, x: Text, b: Text)
    requires NoCapitals(w) && WordAt(path, w, fold, a, x, b)
    ensures Contains(Searched(Basename(path), fold), w)
  {
    hide Basename, Reads, Searched;
    var base := Basename(path);
    ReadsLength(x, w, fold);
    assert path == a + (x + b);
    BaseOf(path, a, x + b);
    var k := |base| - |x + b|;
    assert base[k..k + |w|] == base[k..][..|w|] == (x + b)[..|x|] == x;
    ReadsAt(base, w, fold, k);
  }

  lemma FoundWord(path: Text, w: Text, fold: bool, k: nat)
    requires NoCapitals(w) && k + |w| <= |Basename(path)| && w <= Searched(Basename(path), fold)[k..]
    ensures NamesWord(path, w, fold)
  {
    hide Basename, Reads, Searched, WordAt;
    var base := Basename(path);
    ReadsAt(base, w, fold, k);
    WordPlaced(path, w, fold, path[..|path| - |base|], base, k);
  }

  lemma WordPlaced(path: Text, w: Text, fold: bool, directory: Text, base: Text, k: nat)
    requires path == directory + base && SLASH !in base && k + |w| <= |base| && Reads(base[k..k + |w|], w, fold)
    ensures WordAt(path, w, fold, directory + base[..k], base[k..k + |w|], base[k + |w|..])
  {
    hide Reads;
    assert base == base[..k] + base[k..k + |w|] + base[k + |w|..];
    assert base[k..k + |w|] + base[k + |w|..] == base[k..] && forall c :: c in base[k..] ==> c in base;
  }

  lemma BaseWord(path: Text, w: Text, fold: bool)
    requires NoCapitals(w)
    ensures NamesWord(path, w, fold) <==> Contains(Searched(Basename(path), fold), w)
  {
    hide Basename, WordAt, Searched;
    var said := Searched(Basename(path), fold);
    if NamesWord(path, w, fold) {
      var a, x, b :| WordAt(path, w, fold, a, x, b);
      WordFound(path, w, fold, a, x, b);
    }
    if Contains(said, w) {
      var k :| 0 <= k <= |said| && w <= said[k..];
      FoundWord(path, w, fold, k);
    }
  }

  // ---- The rule ------------------------------------------------------------------------

  /** `_Java_` followed by anything, or one of three names. */
  ghost predicate EntryPoint(e: Text) {
    || [95, 74, 97, 118, 97, 95] <= e
    || e == [95, 74, 78, 73, 95, 79, 110, 76, 111, 97, 100]
    || e == [95, 74, 78, 73, 95, 79, 110, 85, 110, 108, 111, 97, 100]
    || e == [95, 103, 101, 116, 95, 106, 110, 105, 95, 101, 110, 118, 95, 102, 114, 111, 109, 95, 106, 118, 109]
  }

  lemma EntryPoints(e: Text)
    ensures JniEntry(e) <==> EntryPoint(e)
  {
    assert Ascii("_Java_") == [95, 74, 97, 118, 97, 95];
    assert Ascii("_JNI_OnLoad") == [95, 74, 78, 73, 95, 79, 110, 76, 111, 97, 100];
    assert Ascii("_JNI_OnUnload") == [95, 74, 78, 73, 95, 79, 110, 85, 110, 108, 111, 97, 100];
    assert Ascii("_get_jni_env_from_jvm") ==
           [95, 103, 101, 116, 95, 106, 110, 105, 95, 101, 110, 118, 95, 102, 114, 111, 109, 95, 106, 118, 109];
  }

  /** The name of a library that must be embedded: libc++ as written, libssl, libcrypto and mimalloc in any case. */
  ghost predicate Embedded(path: Text) {
    || NamesWord(path, [108, 105, 98, 99, 43, 43], false)
    || NamesWord(path, [108, 105, 98, 115, 115, 108], true)
    || NamesWord(path, [108, 105, 98, 99, 114, 121, 112, 116, 111], true)
    || NamesWord(path, [109, 105, 109, 97, 108, 108, 111, 99], true)
  }

  lemma WordsSpelled()
    ensures LibCpp() == [108, 105, 98, 99, 43, 43] && LibSsl() == [108, 105, 98, 115, 115, 108]
    ensures LibCrypto() == [108, 105, 98, 99, 114, 121, 112, 116, 111]
    ensures Mimalloc() == [109, 105, 109, 97, 108, 108, 111, 99]
  {
  }

  lemma EmbeddedNames(path: Text)
    ensures NamesEmbedded(path) <==> Embedded(path)
  {
    hide NamesWord, Contains, Lower, Basename, LibCpp, LibSsl, LibCrypto, Mimalloc;
    WordsSpelled();
    BaseWord(path, LibCpp(), false);
    BaseWord(path, LibSsl(), true);
    BaseWord(path, LibCrypto(), true);
    BaseWord(path, Mimalloc(), true);
  }

  /** `libdatachannel-java.dylib`, `@rpath/` and `@loader_path` */
  function MainBytes(): Text {
    [108, 105, 98, 100, 97, 116, 97, 99, 104, 97, 110, 110, 101, 108, 45, 106, 97, 118, 97, 46, 100, 121, 108, 105, 98]
  }
  function RpathBytes(): Text { [64, 114, 112, 97, 116, 104, 47] }
  function LoaderBytes(): Text { [64, 108, 111, 97, 100, 101, 114, 95, 112, 97, 116, 104] }

  /** A system path, or the main library beside its loader or on the run path that says so. */
  ghost predicate Found(path: Text, rpaths: seq<Text>) {
    || [47, 117, 115, 114, 47, 108, 105, 98, 47] <= path
    || [47, 83, 121, 115, 116, 101, 109, 47, 76, 105, 98, 114, 97, 114, 121, 47,
        70, 114, 97, 109, 101, 119, 111, 114, 107, 115, 47] <= path
    || path == LoaderBytes() + [47] + MainBytes()
    || (path == RpathBytes() + MainBytes() && LoaderBytes() in rpaths)
  }

  lemma NamesSpelled()
    ensures MainName() == MainBytes() && MachOImage.RpathPrefix() == RpathBytes()
    ensures MachOImage.LoaderPath() == LoaderBytes() && LoaderPrefix() == LoaderBytes() + [47]
  {
  }

  lemma Resolved(path: Text, rpaths: seq<Text>)
    ensures Resolves(path, rpaths) <==> Found(path, rpaths)
  {
    hide MainName, MainBytes, LoaderBytes, RpathBytes, LoaderPrefix;
    NamesSpelled();
    assert UsrLib() == [47, 117, 115, 114, 47, 108, 105, 98, 47];
    assert Frameworks() == [47, 83, 121, 115, 116, 101, 109, 47, 76, 105, 98, 114, 97, 114, 121, 47,
                            70, 114, 97, 109, 101, 119, 111, 114, 107, 115, 47];
  }

  /** What packaging promises of an image's declarations. */
  ghost predicate Promised(m: Metadata) {
    && m.exports != [] && (forall e :: e in m.exports ==> EntryPoint(e))
    && m.id == RpathBytes() + MainBytes()
    && forall d :: d in m.dependencies ==> !Embedded(d) && Found(d, m.rpaths)
  }

  lemma CompliantMeans(m: Metadata)
    ensures Compliant(m) <==> Promised(m)
  {
    hide JniEntry, EntryPoint, NamesEmbedded, Embedded, Resolves, Found, MainName, MainBytes, RpathBytes;
    NamesSpelled();
    forall e ensures JniEntry(e) <==> EntryPoint(e) { EntryPoints(e); }
    forall d ensures NamesEmbedded(d) <==> Embedded(d) { EmbeddedNames(d); }
    forall d ensures Resolves(d, m.rpaths) <==> Found(d, m.rpaths) { Resolved(d, m.rpaths); }
  }

  /**
   Verification passes exactly for one file, the main library, whose bytes say, in some legal cut into
   commands, that every dependency of any kind and every public symbol is as promised.
   */
  method VerifyPackage(binaries: map<Text, Text>, architecture: Architecture) returns (v: Verdict)
    ensures v == Pass <==>
            && binaries.Keys == {MainBytes()}
            && var data := binaries[MainBytes()];
               HeaderSays(data, architecture) && exists cmds, m :: CommandsSay(data, cmds, m) && Promised(m)
  {
    hide Inspected, CommandsSay, Compliant, Promised, MainName, MainBytes;
    NamesSpelled();
    v := Verify(binaries, architecture);
    if binaries.Keys == {MainBytes()} {
      var data := binaries[MainBytes()];
      forall m ensures Inspected(data, architecture) == Some(m) <==>
          HeaderSays(data, architecture) && exists cmds :: CommandsSay(data, cmds, m)
      {
        InspectedMeans(data, architecture, m);
      }
      forall m ensures Compliant(m) <==> Promised(m) { CompliantMeans(m); }
    }
  }
}
