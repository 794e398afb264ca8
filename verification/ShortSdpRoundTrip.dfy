/** The reader recovers what the printer was given. */
module ShortSdpRoundTrip {
  import opened Bytes
  import opened Strings
  import Base64
  import opened ShortSdp

  function UpperAll(parts: seq<string>): (r: seq<string>)
    ensures |r| == |parts| && forall i :: 0 <= i < |parts| ==> r[i] == UpperCase(parts[i])
  {
    seq(|parts|, i requires 0 <= i < |parts| => UpperCase(parts[i]))
  }

  function PadAll(parts: seq<string>): (r: seq<string>)
    ensures |r| == |parts| && forall i :: 0 <= i < |parts| ==> r[i] == PadStart(parts[i])
  {
    seq(|parts|, i requires 0 <= i < |parts| => PadStart(parts[i]))
  }

  // ---- Upper case and hexadecimal over several parts -----------------------------------

  lemma UpperCaseAppend(a: string, b: string)
    ensures UpperCase(a + b) == UpperCase(a) + UpperCase(b)
  {
  }

  lemma {:induction false} UpperCaseJoin(parts: seq<string>, sep: string)
    requires UpperCase(sep) == sep
    ensures UpperCase(Join(parts, sep)) == Join(UpperAll(parts), sep)
  {
    if |parts| > 1 {
      UpperCaseJoin(parts[1..], sep);
      assert UpperAll(parts)[1..] == UpperAll(parts[1..]);
      UpperCaseAppend(parts[0] + sep, Join(parts[1..], sep));
      UpperCaseAppend(parts[0], sep);
    }
  }

  lemma UpperAllTwice(parts: seq<string>)
    ensures UpperAll(UpperAll(parts)) == UpperAll(parts)
  {
    forall i | 0 <= i < |parts| ensures UpperCase(UpperCase(parts[i])) == UpperCase(parts[i]) {
    }
  }

  lemma {:induction false} AllHexJoin(parts: seq<string>)
    requires HexSegments(parts)
    ensures AllHex(Join(parts, []))
  {
    if |parts| > 1 {
      assert parts[0] in parts && forall p :: p in parts[1..] ==> p in parts;
      AllHexJoin(parts[1..]);
    } else if |parts| == 1 {
      assert parts[0] in parts;
    }
  }

  predicate Pairs(parts: seq<string>) { HexSegments(parts) && forall p :: p in parts ==> |p| == 2 }

  lemma {:induction false} EvenJoin(parts: seq<string>)
    requires forall p :: p in parts ==> |p| % 2 == 0
    ensures |Join(parts, [])| % 2 == 0
  {
    if |parts| > 1 {
      assert parts[0] in parts && forall p :: p in parts[1..] ==> p in parts;
      EvenJoin(parts[1..]);
    } else if |parts| == 1 {
      assert parts[0] in parts;
    }
  }

  /** Encoding and decoding equally long even parts gives the parts in upper case, with colons. */
  lemma PartsRoundTrip(parts: seq<string>, n: nat)
    requires n > 0 && n % 2 == 0 && HexSegments(parts) && forall p :: p in parts ==> |p| == n
    ensures AllHex(Join(parts, []))
    ensures Chunks(BytesToHex(HexBytes(Join(parts, []))), n) == UpperAll(parts)
  {
    hide Chunks, HexBytes, BytesToHex, Join, UpperCase;
    AllHexJoin(parts);
    EvenJoin(parts);
    HexRoundTrip(Join(parts, []));
    assert UpperCase([]) == [] by { var e := UpperCase([]); }
    UpperCaseJoin(parts, []);
    ChunksJoin(UpperAll(parts), n);
  }

  // ---- Fingerprint ---------------------------------------------------------------------

  /** A colon-separated fingerprint comes back in upper case (section 5 of RFC 8122 writes it so). */
  lemma FingerprintRoundTrip(pairs: seq<string>)
    requires Pairs(pairs)
    ensures var fingerprint := Join(pairs, ":");
            && AllHex(Remove(fingerprint, ':'))
            && ReadFingerprint(HexBase64(Remove(fingerprint, ':'))) == Some(UpperCase(fingerprint))
  {
    hide Chunks, HexBytes, BytesToHex, Join, UpperCase, Base64.Decode, Base64.Encode, Remove;
    forall p | p in pairs ensures ':' !in p {
    }
    RemoveJoin(pairs, ':');
    PartsRoundTrip(pairs, 2);
    Base64.RoundTrip(HexBytes(Join(pairs, [])));
    ColonUpper();
    UpperCaseJoin(pairs, ":");
    UpperCaseJoin(UpperAll(pairs), ":");
    UpperAllTwice(pairs);
  }

  lemma ColonUpper()
    ensures UpperCase(":") == ":"
  {
  }

  // ---- One candidate -------------------------------------------------------------------

  /** Every segment of an IPv6 address has at most four digits. */
  predicate ShortSegments(c: Candidate) {
    ':' in c.ip ==> forall s :: s in Split(c.ip, ':') ==> |s| <= 4
  }

  /** What the reader lists: the same candidate, an IPv6 address with its groups padded and in upper case. */
  function Listed(c: Candidate): (r: Candidate)
    ensures r.id == c.id && r.port == c.port && r.kind == c.kind
  {
    if ':' in c.ip then c.(ip := Join(UpperAll(PadAll(Split(c.ip, ':'))), ":")) else c
  }

  lemma {:induction false} SegmentBytesJoin(segments: seq<string>)
    requires HexSegments(segments) && forall s :: s in segments ==> |s| <= 4
    ensures HexSegments(PadAll(segments)) && AllHex(Join(PadAll(segments), []))
    ensures SegmentBytes(segments) == HexBytes(Join(PadAll(segments), []))
  {
    hide HexBytes, PadStart;
    var padded := PadAll(segments);
    forall p | p in padded ensures AllHex(p) {
      var i :| 0 <= i < |padded| && padded[i] == p;
      assert segments[i] in segments;
      PadStartHex(segments[i]);
    }
    AllHexJoin(padded);
    if segments != [] {
      assert segments[0] in segments && forall s :: s in segments[1..] ==> s in segments;
      SegmentBytesJoin(segments[1..]);
      assert padded[1..] == PadAll(segments[1..]) && padded[0] in padded;
      HexBytesAppend(padded[0], Join(padded[1..], []));
      assert Join(padded, []) == padded[0] + Join(padded[1..], []);
    } else {
      assert Join(padded, []) == [] && HexBytes([]) == [] by { EmptyBytes(); }
    }
  }

  lemma EmptyBytes()
    ensures HexBytes([]) == []
  {
  }

  lemma IndexOfAt(pre: string, c: char, post: string)
    requires c !in pre
    ensures IndexOf(pre + [c] + post, c) == |pre|
  {
    var s, k := pre + [c] + post, IndexOf(pre + [c] + post, c);
    assert s[|pre|] == c;
    assert forall j :: 0 <= j < |pre| ==> s[j] == pre[j];
    assert forall j :: 0 <= j < k ==> s[..k][j] == s[j];
  }

  lemma FieldParts(family: char, kind: char, raw: string, id: string)
    requires '#' !in raw && family != '#' && kind != '#'
    ensures var line := [family, kind] + raw + ['#'] + id;
            && IndexOf(line, '#') == |raw| + 2 && |line| >= |raw| + 3
            && line[0] == family && line[1] == kind && line[2..|raw| + 2] == raw && line[|raw| + 3..] == id
  {
    IndexOfAt([family, kind] + raw, '#', id);
  }

  lemma TextRoundTrip(s: string)
    requires Ascii7(s)
    ensures BytesText(TextBytes(s)) == s
  {
    forall i | 0 <= i < |s| ensures BytesText(TextBytes(s))[i] == s[i] { assert s[i] in s; }
  }

  lemma Ipv4RoundTrip(c: Candidate)
    requires Printable(c) && ':' !in c.ip
    ensures ReadField(Field(c)) == Found(c)
  {
    hide Base64.Decode, Base64.Encode, JavaSplit, Join, TextBytes, BytesText, IndexOf, Base64.InAlphabet;
    DigitsAscii(c);
    var text := c.ip + ":" + c.port;
    var raw := Base64.Encode(TextBytes(text));
    Base64.RoundTrip(TextBytes(text));
    Base64.NoDelimiters(TextBytes(text));
    TextRoundTrip(text);
    assert Join([c.ip, c.port], ":") == text by { JoinTwo(c.ip, c.port); }
    JavaSplitJoin([c.ip, c.port], ':');
    FieldParts('4', TypeLetter(c.kind), raw, c.id);
    assert Field(c) == ['4', TypeLetter(c.kind)] + raw + ['#'] + c.id;
  }

  lemma JoinTwo(a: string, b: string)
    ensures Join([a, b], ":") == a + ":" + b
  {
    assert [a, b][1..] == [b];
  }

  lemma AddressRoundTrip(segments: seq<string>)
    requires HexSegments(segments) && forall s :: s in segments ==> |s| <= 4
    ensures Base64.Decode(Base64.Encode(SegmentBytes(segments))) == Some(SegmentBytes(segments))
    ensures Chunks(BytesToHex(SegmentBytes(segments)), 4) == UpperAll(PadAll(segments))
  {
    hide Base64.Decode, Base64.Encode, Chunks, BytesToHex, HexBytes, Join, SegmentBytes, PadStart;
    Base64.RoundTrip(SegmentBytes(segments));
    SegmentBytesJoin(segments);
    forall p | p in PadAll(segments) ensures |p| == 4 {
      var i :| 0 <= i < |segments| && PadAll(segments)[i] == p;
      assert segments[i] in segments;
    }
    PartsRoundTrip(PadAll(segments), 4);
  }

  lemma Ipv6RoundTrip(c: Candidate)
    requires Printable(c) && ':' in c.ip && ShortSegments(c)
    ensures ReadField(Field(c)) == Found(Listed(c))
  {
    hide Base64.Decode, Base64.Encode, JavaSplit, Join, SegmentBytes, BytesToHex, IndexOf, Chunks, Split;
    hide UpperAll, PadAll, Base64.InAlphabet;
    var segments := Split(c.ip, ':');
    var address := Base64.Encode(SegmentBytes(segments));
    AddressRoundTrip(segments);
    Base64.NoDelimiters(SegmentBytes(segments));
    JoinTwo(address, c.port);
    JavaSplitJoin([address, c.port], ':');
    FieldParts('6', TypeLetter(c.kind), address + ":" + c.port, c.id);
    assert Field(c) == ['6', TypeLetter(c.kind)] + (address + ":" + c.port) + ['#'] + c.id;
  }

  lemma FieldRoundTrip(c: Candidate)
    requires Printable(c) && ShortSegments(c)
    ensures ReadField(Field(c)) == Found(Listed(c))
    ensures '.' !in Field(c) && '\n' !in Field(c) && Field(c) != []
  {
    hide ReadField, Base64.Encode, SegmentBytes, TextBytes;
    if ':' in c.ip {
      Ipv6RoundTrip(c);
      Base64.NoDelimiters(SegmentBytes(Split(c.ip, ':')));
    } else {
      Ipv4RoundTrip(c);
      DigitsAscii(c);
      Base64.NoDelimiters(TextBytes(c.ip + ":" + c.port));
    }
  }

  function ListedAll(cands: seq<Candidate>): (r: seq<Candidate>)
    ensures |r| == |cands| && forall i :: 0 <= i < |cands| ==> r[i] == Listed(cands[i])
  {
    seq(|cands|, i requires 0 <= i < |cands| => Listed(cands[i]))
  }

  lemma {:induction false} FieldsRoundTrip(cands: seq<Candidate>)
    requires forall c :: c in cands ==> Printable(c) && ShortSegments(c)
    ensures ReadFields(Fields(cands)) == Some(ListedAll(cands))
  {
    hide Printable, ShortSegments, Field, ReadField, Listed;
    if cands != [] {
      var init, last := cands[..|cands| - 1], cands[|cands| - 1];
      assert last in cands && forall c :: c in init ==> c in cands;
      FieldsRoundTrip(init);
      FieldRoundTrip(last);
      assert Fields(cands)[..|cands| - 1] == Fields(init);
      assert ListedAll(init) + [Listed(last)] == ListedAll(cands);
    }
  }

  // ---- The whole line ------------------------------------------------------------------

  /** ICE text, as section 5.4 of RFC 8839 restricts it, has neither a dot nor a line break. */
  predicate IceText(s: string) { '.' !in s && '\n' !in s }

  lemma PlainMark(text: string)
    requires ['v', '='] <= text
    ensures ['v', '='] <= Remove(text, '\n')
  {
    assert text[0] == 'v' && text[1..][0] == '=';
  }

  /** A printed line is never mistaken for a plain description, wherever it is broken. */
  lemma NotPlain(text: string, fingerprint: seq<byte>, rest: string)
    requires Remove(text, '\n') == Base64.Encode(fingerprint) + "." + rest
    ensures !(['v', '='] <= text)
  {
    hide Base64.Encode, Remove;
    Base64.RoundTrip(fingerprint);
    var line, b := Base64.Encode(fingerprint) + "." + rest, Base64.Encode(fingerprint);
    if b == [] {
      assert line[0] == '.';
    } else {
      assert line[1] == b[1] && b[1] in b;
    }
    if ['v', '='] <= text { PlainMark(text); }
  }

  lemma PiecesOf(heads: seq<string>, cands: seq<Candidate>)
    requires |heads| == 3 && forall h :: h in heads ==> '.' !in h
    requires forall c :: c in cands ==> Printable(c) && ShortSegments(c)
    ensures Split(Join(heads + Fields(cands), "."), '.') == heads + Fields(cands)
    ensures '.' in Join(heads + Fields(cands), ".")
    ensures cands != [] ==> JavaSplit(Join(heads + Fields(cands), "."), '.') == heads + Fields(cands)
  {
    hide Field, Printable, ShortSegments;
    var parts := heads + Fields(cands);
    forall p | p in parts ensures '.' !in p {
      if p !in heads {
        var i :| 0 <= i < |cands| && Fields(cands)[i] == p;
        assert cands[i] in cands;
        FieldRoundTrip(cands[i]);
      }
    }
    SplitJoin(parts, '.');
    if '.' !in Join(parts, ".") { SplitWhole(Join(parts, "."), '.'); }
    if cands != [] {
      assert cands[|cands| - 1] in cands && parts[|parts| - 1] == Field(cands[|cands| - 1]);
      FieldRoundTrip(cands[|cands| - 1]);
      JavaSplitJoin(parts, '.');
    }
  }

  /** The reader sees the printed fields, however the text was broken. */
  lemma PrintedPieces(fp: seq<byte>, pwd: string, ufrag: string, cands: seq<Candidate>, text: string)
    requires IceText(pwd) && IceText(ufrag)
    requires forall c :: c in cands ==> Printable(c) && ShortSegments(c)
    requires Remove(text, '\n') == Join([Base64.Encode(fp), pwd, ufrag] + Fields(cands), ".")
    ensures var heads := [Base64.Encode(fp), pwd, ufrag];
            Read(text) == ReadPieces(if cands == [] then DropTrailingEmpty(heads) else heads + Fields(cands))
  {
    hide Field, Printable, ShortSegments, Base64.Encode, Split, Join, ReadPieces, DropTrailingEmpty, Remove;
    var b, tail := Base64.Encode(fp), [pwd, ufrag] + Fields(cands);
    Base64.RoundTrip(fp);
    PiecesOf([b, pwd, ufrag], cands);
    JoinHead(b, tail);
    assert [b] + tail == [b, pwd, ufrag] + Fields(cands);
    assert cands == [] ==> [b, pwd, ufrag] + Fields(cands) == [b, pwd, ufrag];
    NotPlain(text, fp, Join(tail, "."));
  }

  /**
   The answer survives the trip: the fingerprint in upper case, the ICE credentials, and every
   candidate's id, type, address and port, in order. A line without candidates is refused.
   The text may be broken over several lines when it is copied.
   */
  lemma AnswerRoundTrip(pairs: seq<string>, pwd: string, ufrag: string, cands: seq<Candidate>, text: string)
    requires Pairs(pairs) && IceText(pwd) && IceText(ufrag)
    requires forall c :: c in cands ==> Printable(c) && ShortSegments(c)
    requires BrowserAnswer(Join(pairs, ":"), pwd, ufrag, cands) == Some(Remove(text, '\n'))
    ensures Read(text) ==
            if cands == [] then NoCandidates
            else Answer(UpperCase(Join(pairs, ":")), pwd, ufrag, ListedAll(cands),
                        if ':' in cands[0].ip then "IP6 " + Join(UpperAll(PadAll(Split(cands[0].ip, ':'))), ":")
                        else "IP4 " + cands[0].ip,
                        cands[0].port)
  {
    hide BrowserAnswer, Field, Printable, ShortSegments, Base64.Encode, HexBytes, UpperCase, Connection, Read;
    hide Join, ReadFingerprint, DropTrailingEmpty, Listed, Remove;
    FingerprintRoundTrip(pairs);
    var fp := HexBytes(Remove(Join(pairs, ":"), ':'));
    var heads := [Base64.Encode(fp), pwd, ufrag];
    BrowserPrints(Join(pairs, ":"), pwd, ufrag, cands);
    PrintedPieces(fp, pwd, ufrag, cands, text);
    FieldsRoundTrip(cands);
    assert (heads + Fields(cands))[3..] == Fields(cands);
    if cands == [] { NoCandidatesRead(heads); } else { ConnectionListed(cands[0]); }
  }

  lemma ConnectionListed(c: Candidate)
    ensures Connection(Listed(c)) ==
            if ':' in c.ip then "IP6 " + Join(UpperAll(PadAll(Split(c.ip, ':'))), ":") else "IP4 " + c.ip
  {
    hide UpperAll, PadAll;
    if ':' in c.ip {
      JoinSplit(c.ip, ':');
      var parts := UpperAll(PadAll(Split(c.ip, ':')));
      assert Join(parts, ":") == parts[0] + ":" + Join(parts[1..], ":");
    }
  }

  lemma JoinHead(head: string, rest: seq<string>)
    requires rest != []
    ensures Join([head] + rest, ".") == head + "." + Join(rest, ".")
  {
    assert ([head] + rest)[1..] == rest;
  }

  lemma NoCandidatesRead(heads: seq<string>)
    requires |heads| == 3 && ReadFingerprint(heads[0]).Some?
    ensures ReadPieces(DropTrailingEmpty(heads)) == NoCandidates
  {
    hide ReadFingerprint;
    var pieces := DropTrailingEmpty(heads);
    assert pieces != [] ==> pieces[0] == heads[0];
    if |pieces| == 3 { assert pieces[3..] == []; }
  }

  // ---- IPv6 text with a gap ------------------------------------------------------------

  predicate Group(s: string) { 1 <= |s| <= 4 && AllHex(s) }

  /** An IPv6 address as written: all eight groups, or two runs around a "::". */
  datatype Address = Full(groups: seq<string>) | Gapped(left: seq<string>, right: seq<string>)

  predicate LegalAddress(a: Address) {
    match a
    case Full(groups) => |groups| == 8 && forall g :: g in groups ==> Group(g)
    case Gapped(left, right) => |left| + |right| <= 7 && forall g :: g in left + right ==> Group(g)
  }

  /** The colon-separated segments of the written address; the gap leaves empty ones. */
  function Segments(a: Address): (segments: seq<string>)
    requires LegalAddress(a)
    ensures HexSegments(segments) && forall s :: s in segments ==> |s| <= 4 && ':' !in s
    ensures |segments| >= 3
  {
    match a
    case Full(groups) => groups
    case Gapped(left, right) =>
      assert forall g :: g in left ==> g in left + right;
      assert forall g :: g in right ==> g in left + right;
      (if left == [] then [[]] else left) + [[]] + (if right == [] then [[]] else right)
  }

  function HexValue(s: string): nat
    requires AllHex(s)
  {
    if s == [] then 0 else 16 * HexValue(s[..|s| - 1]) + Nibble(s[|s| - 1])
  }

  function Values(groups: seq<string>): (r: seq<nat>)
    requires HexSegments(groups)
    ensures |r| == |groups| && forall i :: 0 <= i < |r| ==> r[i] == HexValue(groups[i])
  {
    seq(|groups|, i requires 0 <= i < |groups| => HexValue(groups[i]))
  }

  /** The eight groups an address stands for (section 2.2 of RFC 4291): the gap is as many zeros as are missing. */
  function Meaning(a: Address): (r: seq<nat>)
    requires LegalAddress(a)
    ensures |r| == 8
  {
    match a
    case Full(groups) => Values(groups)
    case Gapped(left, right) =>
      assert forall g :: g in left ==> g in left + right;
      assert forall g :: g in right ==> g in left + right;
      Values(left) + seq(8 - |left| - |right|, _ => 0) + Values(right)
  }

  lemma {:induction false} PadStartValue(s: string)
    requires AllHex(s) && |s| <= 4
    ensures AllHex(PadStart(s)) && HexValue(PadStart(s)) == HexValue(s)
    decreases 4 - |s|
  {
    if |s| < 4 {
      PadStartValue(['0'] + s);
      ZeroInFront(s);
    }
  }

  lemma {:induction false} ZeroInFront(s: string)
    requires AllHex(s)
    ensures AllHex(['0'] + s) && HexValue(['0'] + s) == HexValue(s)
  {
    var z := ['0'] + s;
    if s == [] {
      assert z[..0] == [] && z[0] == '0';
    } else {
      assert z[..|z| - 1] == ['0'] + s[..|s| - 1];
      ZeroInFront(s[..|s| - 1]);
    }
  }

  lemma {:induction false} UpperValue(s: string)
    requires AllHex(s)
    ensures AllHex(UpperCase(s)) && HexValue(UpperCase(s)) == HexValue(s)
  {
    if s != [] {
      assert s[|s| - 1] in s;
      assert UpperCase(s)[..|s| - 1] == UpperCase(s[..|s| - 1]);
      UpperValue(s[..|s| - 1]);
      assert UpperCase(s) == UpperCase(s[..|s| - 1]) + [Upper(s[|s| - 1])];
    }
  }

  /** The groups the reader lists for an address: one for each segment, an empty segment being zero. */
  lemma ListedGroups(a: Address, c: Candidate)
    requires LegalAddress(a) && c.ip == Join(Segments(a), ":")
    ensures ':' in c.ip && Split(c.ip, ':') == Segments(a)
    ensures var listed := Split(Listed(c).ip, ':'); HexSegments(listed) && Values(listed) == Values(Segments(a))
  {
    hide Segments, UpperCase, PadStart, HexValue, Split, Join;
    var segments := Segments(a);
    SplitJoin(segments, ':');
    if ':' !in c.ip { SplitWhole(c.ip, ':'); }
    var groups := UpperAll(PadAll(segments));
    forall i | 0 <= i < |segments| ensures AllHex(groups[i]) && HexValue(groups[i]) == HexValue(segments[i]) {
      assert segments[i] in segments;
      PadStartValue(segments[i]);
      UpperValue(PadStart(segments[i]));
    }
    assert HexSegments(groups);
    forall g | g in groups ensures ':' !in g {
    }
    SplitJoin(groups, ':');
  }

  /** What the reader makes of the browser's field for `c`, if it makes a candidate of it. */
  function ReadPrinted(c: Candidate): Line {
    match BrowserField(c)
    case None => Throws
    case Some(field) => ReadField(field)
  }

  lemma Ipv6ReadPrinted(a: Address, c: Candidate)
    requires LegalAddress(a) && c.ip == Join(Segments(a), ":") && Numbered(c)
    ensures ReadPrinted(c) == Found(Listed(c))
  {
    hide Segments, Join, Split, Field, BrowserField, ReadField, Listed, UpperAll, PadAll, HexValue;
    ListedGroups(a, c);
    assert Printable(c);
    BrowserFieldPrints(c);
    Ipv6RoundTrip(c);
  }

  /**
   The printer does not expand "::". The reader gets back the address that was meant exactly when the
   written address has eight segments: no gap, or a gap that its own empty segments fill.
   */
  lemma Ipv6Exact(a: Address, c: Candidate)
    requires LegalAddress(a) && c.ip == Join(Segments(a), ":") && Numbered(c)
    ensures ReadPrinted(c).Found?
    ensures var groups := Split(ReadPrinted(c).candidate.ip, ':');
            HexSegments(groups) && (Values(groups) == Meaning(a) <==> |Split(c.ip, ':')| == 8)
  {
    hide Split, Join, UpperAll, PadAll, Listed, HexValue, Meaning, ReadPrinted;
    Ipv6ReadPrinted(a, c);
    ListedGroups(a, c);
    if |Segments(a)| == 8 { GapFills(a); }
  }

  lemma GapFills(a: Address)
    requires LegalAddress(a) && |Segments(a)| == 8
    ensures Values(Segments(a)) == Meaning(a)
  {
    hide HexValue, Group;
    NoDigits();
  }

  lemma NoDigits()
    ensures HexValue([]) == 0
  {
  }

  /** The loopback address, written "::1", comes back as three groups. */
  lemma LoopbackIsLost(c: Candidate)
    requires c.ip == "::1" && Numbered(c)
    ensures var a := Gapped([], ["1"]);
            && LegalAddress(a) && c.ip == Join(Segments(a), ":") && ReadPrinted(c).Found?
            && HexSegments(Split(ReadPrinted(c).candidate.ip, ':'))
            && Values(Split(ReadPrinted(c).candidate.ip, ':')) != Meaning(a)
  {
    hide ReadPrinted, HexValue, Meaning, Split;
    var a, one := Gapped([], ["1"]), ["1"];
    assert Segments(a) == [[], [], "1"];
    JoinHead3([], [], "1");
    ListedGroups(a, c);
    Ipv6Exact(a, c);
  }

  lemma JoinHead3(x: string, y: string, z: string)
    ensures Join([x, y, z], ":") == x + ":" + (y + ":" + z)
  {
    JoinTwo(y, z);
    assert [x, y, z][1..] == [y, z];
  }
}
