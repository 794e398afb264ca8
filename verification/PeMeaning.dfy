/**
 The words the import audit looks for, spelled out: character classes, headings, heap functions, and the
 reports of the repository's own examples.
 */
module PeMeaning {
  import opened Bytes
  import opened PeImports

  // ---- Character classes ---------------------------------------------------------------

  lemma HexCharacters(c: char)
    ensures IsHex(c) <==> c in "0123456789" || c in "abcdef" || c in "ABCDEF"
  {
    HexDigits(c);
    if 'a' <= c <= 'f' { assert "abcdef"[c as int - 97] == c; }
    if 'A' <= c <= 'F' { assert "ABCDEF"[c as int - 65] == c; }
  }

  lemma HexDigits(c: char)
    ensures c in "0123456789" <==> '0' <= c <= '9'
  {
    if '0' <= c <= '9' { assert "0123456789"[c as int - 48] == c; }
  }

  lemma DecimalWords(w: string)
    ensures Decimal(w) <==> w != [] && forall i :: 0 <= i < |w| ==> w[i] in "0123456789"
  {
    forall i | 0 <= i < |w| ensures w[i] in "0123456789" <==> '0' <= w[i] <= '9' { HexDigits(w[i]); }
  }

  lemma SpaceCharacters(c: char)
    ensures IsSpace(c) <==> c in [' ', '\t', '\n', 11 as char, 12 as char, '\r']
  {
  }

  /** A name starts with a letter of either case, an underscore or a question mark. */
  lemma NameCharacters(c: char)
    ensures IsNameStart(c) <==> c == '_' || c == '?' || 65 <= c as int <= 90 || 97 <= c as int <= 122
  {
  }

  // ---- Headings ------------------------------------------------------------------------

  ghost predicate Holds(line: string, word: string) { exists a, b :: line == a + word + b }

  lemma ContainsMeans(line: string, word: string)
    ensures Contains(line, word) <==> Holds(line, word)
  {
    if Contains(line, word) {
      var i: nat :| i <= |line| && At(line, i, word);
      assert line == line[..i] + word + line[i + |word|..];
    }
    if a, b :| line == a + word + b {
      assert line[|a|..|a| + |word|] == word && At(line, |a|, word);
    }
  }

  /** A DLL's section starts at its name line; the imports end at any of three headings of the exports. */
  lemma HeadingsMean(line: string)
    ensures StartsDll(line) <==> Holds(line, "DLL Name:")
    ensures EndsImports(line) <==>
            || Holds(line, "The Export Tables") || Holds(line, "Export Table:")
            || Holds(line, "[Ordinal/Name Pointer] Table")
  {
    hide Contains, Holds;
    ContainsMeans(line, "DLL Name:");
    ContainsMeans(line, "The Export Tables");
    ContainsMeans(line, "Export Table:");
    ContainsMeans(line, "[Ordinal/Name Pointer] Table");
  }

  // ---- Layouts -------------------------------------------------------------------------

  /** Recent GNU tools: address, ordinal or "<none>", hint and name; the rest of the line does not matter. */
  lemma GnuLayout(gaps: seq<string>, words: seq<string>)
    requires |gaps| == |words| >= 4 && Gaps(gaps) && forall w :: w in words ==> IsWord(w)
    requires Hex(words[0]) && (Hex(words[1]) || words[1] == "<none>") && Hex(words[2]) && Name(words[3])
    ensures SymbolOf(Row(gaps, words)) == Some(words[3])
  {
    hide Words, Row;
    WordsRow(gaps, words);
  }

  /** Older GNU tools: address, hint and name, and nothing more. */
  lemma OldGnuLayout(gaps: seq<string>, words: seq<string>)
    requires |gaps| == |words| == 3 && Gaps(gaps) && forall w :: w in words ==> IsWord(w)
    requires Hex(words[0]) && Hex(words[1]) && Name(words[2])
    ensures SymbolOf(Row(gaps, words)) == Some(words[2])
  {
    hide Words, Row;
    WordsRow(gaps, words);
  }

  /** LLVM tools: a decimal hint and the name. */
  lemma LlvmLayout(gaps: seq<string>, words: seq<string>)
    requires |gaps| == |words| == 2 && Gaps(gaps) && forall w :: w in words ==> IsWord(w)
    requires words[0] != [] && (forall i :: 0 <= i < |words[0]| ==> words[0][i] in "0123456789") && Name(words[1])
    ensures SymbolOf(Row(gaps, words)) == Some(words[1])
  {
    hide Words, Row, Decimal;
    DecimalWords(words[0]);
    WordsRow(gaps, words);
  }

  /** Every import of the three layouts can be printed: nothing but well-formed columns is asked of it. */
  lemma ImportsValid(a: string, o: string, h: string, n: string)
    requires Hex(a) && Hex(o) && Hex(h) && Name(n)
    ensures Gnu(a, Some(o), h, n).Valid() && Gnu(a, None, h, n).Valid() && OldGnu(a, h, n).Valid()
    ensures Decimal(h) ==> Llvm(h, n).Valid()
  {
  }

  // ---- Heap functions ------------------------------------------------------------------

  /** The four functions every heap has, and the forms in which runtimes export them. */
  lemma CoreFunctions(f: string)
    requires f in ["malloc", "calloc", "realloc", "free"]
    ensures IsHeap(f) && IsHeap("__libc_" + f) && IsHeap("_" + f + "_base")
  {
    InGeneral(f);
    InRuntime(f);
    InSize(f);
  }

  lemma InGeneral(f: string)
    requires f in ["malloc", "calloc", "realloc", "free"]
    ensures IsHeap(f)
  {
    assert GENERAL_APIS[0] == "malloc" && GENERAL_APIS[1] == "calloc";
    assert GENERAL_APIS[2] == "realloc" && GENERAL_APIS[4] == "free";
    assert f in GENERAL_APIS;
  }

  lemma InRuntime(f: string)
    requires f in ["malloc", "calloc", "realloc", "free"]
    ensures IsHeap("__libc_" + f)
  {
    assert "__libc_" + "malloc" == RUNTIME_APIS[0] && "__libc_" + "calloc" == RUNTIME_APIS[1];
    assert "__libc_" + "realloc" == RUNTIME_APIS[2] && "__libc_" + "free" == RUNTIME_APIS[3];
    assert "__libc_" + f in RUNTIME_APIS;
  }

  lemma InSize(f: string)
    requires f in ["malloc", "calloc", "realloc", "free"]
    ensures IsHeap("_" + f + "_base")
  {
    assert "_" + "malloc" + "_base" == SIZE_APIS[4] && "_" + "calloc" + "_base" == SIZE_APIS[5];
    assert "_" + "realloc" + "_base" == SIZE_APIS[6] && "_" + "free" + "_base" == SIZE_APIS[7];
    assert "_" + f + "_base" in SIZE_APIS;
  }

  lemma AlignedFunctions(f: string)
    requires f in ["malloc", "realloc", "recalloc"]
    ensures IsHeap("_aligned_" + f) && IsHeap("_aligned_offset_" + f) && IsHeap("_aligned_free")
  {
    assert "_aligned_" + "malloc" == ALIGNED_APIS[5] && "_aligned_" + "realloc" == ALIGNED_APIS[6];
    assert "_aligned_" + "recalloc" == ALIGNED_APIS[7] && "_aligned_free" == ALIGNED_APIS[8];
    assert "_aligned_offset_" + "malloc" == ALIGNED_APIS[9] && "_aligned_offset_" + "realloc" == ALIGNED_APIS[10];
    assert "_aligned_offset_" + "recalloc" == ALIGNED_APIS[11];
    assert "_aligned_" + f in ALIGNED_APIS && "_aligned_offset_" + f in ALIGNED_APIS;
  }

  /** Functions that return a string they allocated. */
  lemma StringFunctions(f: string)
    ensures f in ["strdup", "wcsdup"] ==> IsHeap(f) && IsHeap("_" + f)
    ensures f in ["asprintf", "vasprintf"] ==> IsHeap(f) && IsHeap(f + "_l")
    ensures IsHeap("strndup")
  {
    assert STRING_APIS[0] == "strdup" && STRING_APIS[1] == "strndup" && STRING_APIS[2] == "wcsdup";
    assert STRING_APIS[3] == "_" + "strdup" && STRING_APIS[4] == "_" + "wcsdup";
    assert STRING_APIS[5] == "asprintf" && STRING_APIS[6] == "vasprintf";
    assert STRING_APIS[7] == "asprintf" + "_l" && STRING_APIS[8] == "vasprintf" + "_l";
    assert "strndup" in STRING_APIS;
    if f in ["strdup", "wcsdup"] { assert f in STRING_APIS && "_" + f in STRING_APIS; }
    if f in ["asprintf", "vasprintf"] { assert f in STRING_APIS && f + "_l" in STRING_APIS; }
  }

  /** The storage of C++ exceptions. */
  lemma ExceptionFunctions()
    ensures IsHeap("__cxa_allocate_exception") && IsHeap("__cxa_allocate_dependent_exception")
    ensures IsHeap("__cxa_free_exception") && IsHeap("__cxa_free_dependent_exception")
  {
    assert RUNTIME_APIS[4] == "__cxa_allocate_exception" && RUNTIME_APIS[5] == "__cxa_free_exception";
    assert RUNTIME_APIS[6] == "__cxa_allocate_dependent_exception";
    assert RUNTIME_APIS[7] == "__cxa_free_dependent_exception";
  }

  /** The rest of the list, the zones of macOS, and how many names the list has in all. */
  lemma OtherFunctions(rest: string)
    ensures IsHeap("reallocarray") && IsHeap("cfree") && IsHeap("_recalloc") && IsHeap("_expand")
    ensures IsHeap("aligned_alloc") && IsHeap("posix_memalign") && IsHeap("memalign")
    ensures IsHeap("valloc") && IsHeap("pvalloc")
    ensures IsHeap("malloc_size") && IsHeap("malloc_usable_size") && IsHeap("_msize") && IsHeap("_aligned_msize")
    ensures IsHeap("malloc_zone_" + rest)
    ensures |HEAP_APIS| == 45
  {
    assert "reallocarray" == GENERAL_APIS[3] && "cfree" == GENERAL_APIS[5];
    assert "_recalloc" == GENERAL_APIS[6] && "_expand" == GENERAL_APIS[7];
    assert "aligned_alloc" == ALIGNED_APIS[0] && "posix_memalign" == ALIGNED_APIS[1] && "memalign" == ALIGNED_APIS[2];
    assert "valloc" == ALIGNED_APIS[3] && "pvalloc" == ALIGNED_APIS[4];
    assert "malloc_size" == SIZE_APIS[0] && "malloc_usable_size" == SIZE_APIS[1];
    assert "_msize" == SIZE_APIS[2] && "_aligned_msize" == SIZE_APIS[3];
  }

  /** Besides the list, exactly C++'s operators new and delete and the zone functions of macOS are heap functions. */
  lemma Prefixed(symbol: string)
    requires symbol !in HEAP_APIS
    ensures IsHeap(symbol) <==>
            exists rest :: symbol == "_Zn" + rest || symbol == "_Zd" + rest || symbol == "malloc_zone_" + rest
  {
    if "_Zn" <= symbol { assert symbol == "_Zn" + symbol[3..]; }
    if "_Zd" <= symbol { assert symbol == "_Zd" + symbol[3..]; }
    if "malloc_zone_" <= symbol { assert symbol == "malloc_zone_" + symbol[12..]; }
  }
}
