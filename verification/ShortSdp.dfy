/**
 The one-line answer a browser prints for a human to copy, and the Java reader of that line.
 Dots separate the fields, so everything between them is base64, ICE text or decimal digits.
 */
module ShortSdp {
  import opened Bytes
  import opened Strings
  import Base64

  datatype CandidateType = Host | Srflx

  /** A candidate as extracted from the browser's description, and as the reader lists it. */
  datatype Candidate = Candidate(id: string, ip: string, port: string, kind: CandidateType)

  // ---- Hexadecimal ---------------------------------------------------------------------

  predicate IsHex(c: char) { '0' <= c <= '9' || 'a' <= c <= 'f' || 'A' <= c <= 'F' }

  function Nibble(c: char): (n: nat)
    requires IsHex(c)
    ensures n < 16
  {
    if '0' <= c <= '9' then c as int - 48 else if 'a' <= c <= 'f' then c as int - 87 else c as int - 55
  }

  function HexDigit(n: nat): (c: char)
    requires n < 16
    ensures IsHex(c) && Nibble(c) == n
  {
    if n < 10 then (n + 48) as char else (n + 55) as char
  }

  function Upper(c: char): char { if 'a' <= c <= 'z' then (c as int - 32) as char else c }

  function UpperCase(s: string): (r: string)
    ensures |r| == |s|
  {
    seq(|s|, i requires 0 <= i < |s| => Upper(s[i]))
  }

  predicate AllHex(s: string) { forall c :: c in s ==> IsHex(c) }

  /** Two digits a byte; a last odd digit is a byte of its own, as `parseInt` of one digit is. */
  function HexBytes(hex: string): (b: seq<byte>)
    requires AllHex(hex)
  {
    if |hex| == 0 then []
    else if |hex| == 1 then [Nibble(hex[0])]
    else [Nibble(hex[0]) * 16 + Nibble(hex[1])] + HexBytes(hex[2..])
  }

  function BytesToHex(b: seq<byte>): (hex: string)
    ensures |hex| == 2 * |b|
  {
    if b == [] then [] else [HexDigit(b[0] / 16), HexDigit(b[0] % 16)] + BytesToHex(b[1..])
  }

  /** The whole pieces of `n` characters; a shorter remainder is dropped. */
  function Chunks(s: string, n: nat): seq<string>
    requires n > 0
  {
    if |s| < n then [] else [s[..n]] + Chunks(s[n..], n)
  }

  const HEX_ARRAY := "0123456789ABCDEF"

  lemma HexTable(n: nat)
    requires n < 16
    ensures HexDigit(n) == HEX_ARRAY[n]
  {
  }

  method BytesToHexChars(bytes: seq<byte>) returns (hex: string)
    ensures hex == BytesToHex(bytes)
  {
    hide HexDigit;
    var hexChars := new char[2 * |bytes|];
    for j := 0 to |bytes|
      invariant hexChars[..2 * j] == BytesToHex(bytes[..j])
    {
      var v := bytes[j];
      HexTable(v / 16);
      HexTable(v % 16);
      hexChars[j * 2] := HEX_ARRAY[v / 16];
      hexChars[j * 2 + 1] := HEX_ARRAY[v % 16];
      BytesToHexAppend(bytes[..j], [v]);
      assert bytes[..j + 1] == bytes[..j] + [v];
      assert hexChars[..2 * (j + 1)] == hexChars[..2 * j] + [HexDigit(v / 16), HexDigit(v % 16)];
    }
    assert bytes[..|bytes|] == bytes;
    return hexChars[..];
  }

  lemma {:induction false} BytesToHexAppend(a: seq<byte>, b: seq<byte>)
    ensures BytesToHex(a + b) == BytesToHex(a) + BytesToHex(b)
  {
    if a == [] {
      assert a + b == b;
    } else {
      assert (a + b)[1..] == a[1..] + b;
      BytesToHexAppend(a[1..], b);
    }
  }

  /** Printing the bytes of an even run of hex digits gives the digits back in upper case. */
  lemma {:induction false} HexRoundTrip(hex: string)
    requires AllHex(hex) && |hex| % 2 == 0
    ensures BytesToHex(HexBytes(hex)) == UpperCase(hex)
  {
    hide Nibble, HexDigit, IsHex, Upper;
    if hex == [] {
      assert UpperCase(hex) == [];
    } else {
      var x, y := hex[0], hex[1];
      assert x in hex && y in hex && AllHex(hex[2..]);
      HexRoundTrip(hex[2..]);
      assert UpperCase(hex) == [Upper(x), Upper(y)] + UpperCase(hex[2..]);
      UpperDigit(x);
      UpperDigit(y);
      HexBytesStep(hex);
      BytesToHexAppend([Nibble(x) * 16 + Nibble(y)], HexBytes(hex[2..]));
      ByteDigits(Nibble(x), Nibble(y));
    }
  }

  lemma HexBytesStep(hex: string)
    requires AllHex(hex) && |hex| >= 2
    ensures AllHex(hex[2..]) && hex[0] in hex && hex[1] in hex
    ensures HexBytes(hex) == [Nibble(hex[0]) * 16 + Nibble(hex[1])] + HexBytes(hex[2..])
  {
    hide Nibble, IsHex;
  }

  lemma ByteDigits(high: nat, low: nat)
    requires high < 16 && low < 16
    ensures BytesToHex([high * 16 + low]) == [HexDigit(high), HexDigit(low)]
  {
    hide HexDigit;
    assert (high * 16 + low) / 16 == high && (high * 16 + low) % 16 == low;
  }

  lemma UpperDigit(c: char)
    requires IsHex(c)
    ensures HexDigit(Nibble(c)) == Upper(c)
  {
  }

  lemma {:induction false} HexBytesAppend(a: string, b: string)
    requires AllHex(a) && AllHex(b) && |a| % 2 == 0
    ensures AllHex(a + b) && HexBytes(a + b) == HexBytes(a) + HexBytes(b)
  {
    if a == [] {
      assert a + b == b;
    } else {
      assert (a + b)[2..] == a[2..] + b;
      HexBytesAppend(a[2..], b);
    }
  }

  /** Cutting a text made of `n`-character parts recovers the parts. */
  lemma {:induction false} ChunksJoin(parts: seq<string>, n: nat)
    requires n > 0 && forall p :: p in parts ==> |p| == n
    ensures Chunks(Join(parts, []), n) == parts
  {
    if parts != [] {
      var s := Join(parts, []);
      assert parts[0] in parts;
      if |parts| == 1 {
        assert s[n..] == [] && Chunks([], n) == [];
      } else {
        assert s == parts[0] + Join(parts[1..], []);
        assert s[n..] == Join(parts[1..], []);
        ChunksJoin(parts[1..], n);
      }
      assert s[..n] == parts[0];
    }
  }

  // ---- The browser's printer -----------------------------------------------------------

  function HexBase64(hex: string): string
    requires AllHex(hex)
  {
    Base64.Encode(HexBytes(hex))
  }

  /** JavaScript's white space. */
  predicate IsJsSpace(c: char) {
    || c == ' ' || '\t' <= c <= '\r' || c == '\U{A0}' || c == '\U{1680}' || '\U{2000}' <= c <= '\U{200A}'
    || c == '\U{2028}' || c == '\U{2029}' || c == '\U{202F}' || c == '\U{205F}' || c == '\U{3000}' || c == '\U{FEFF}'
  }

  /** The white space of sections 12.2 and 12.3 of ECMA-262: controls, the no-break spaces, and category Zs. */
  lemma JsSpaces(c: char)
    ensures IsJsSpace(c) <==>
            || c as int in {9, 10, 11, 12, 13, 32, 0xA0, 0x1680, 0x202F, 0x205F, 0x3000, 0xFEFF}
            || c as int in {0x2000, 0x2001, 0x2002, 0x2003, 0x2004, 0x2005, 0x2006, 0x2007, 0x2008, 0x2009, 0x200A}
            || c as int == 0x2028 || c as int == 0x2029
  {
  }

  /**
   `parseInt(pair, 16)` of one or two characters: leading white space and a sign are skipped, and what
   follows the digits is ignored. Where there is no digit the NaN becomes 0 in both encoders.
   */
  function PairCode(pair: string): (code: int)
    requires 1 <= |pair| <= 2
    ensures -16 < code < 0x100
  {
    var first := pair[0];
    if |pair| == 1 then if IsHex(first) then Nibble(first) else 0
    else if IsHex(first) then if IsHex(pair[1]) then Nibble(first) * 16 + Nibble(pair[1]) else Nibble(first)
    else if !IsHex(pair[1]) then 0
    else if first == '-' then (var digit: int := Nibble(pair[1]); -digit)
    else if first == '+' || IsJsSpace(first) then Nibble(pair[1])
    else 0
  }

  /** The leading digits of a text. */
  function Digits(s: string): (digits: string)
    ensures AllHex(digits) && digits <= s
  {
    if s == [] || !IsHex(s[0]) then [] else [s[0]] + Digits(s[1..])
  }

  function Value16(digits: string): nat
    requires AllHex(digits)
  {
    if digits == [] then 0 else 16 * Value16(digits[..|digits| - 1]) + Nibble(digits[|digits| - 1])
  }

  function TrimStart(s: string): string {
    if s != [] && IsJsSpace(s[0]) then TrimStart(s[1..]) else s
  }

  /**
   `parseInt(s, 16)` (ECMA-262, section 19.2.5) of any text; None is NaN. White space, a sign and "0x"
   may come before the digits, and anything after them.
   */
  function ParseInt16(s: string): Option<int> {
    var trimmed := TrimStart(s);
    var negative := trimmed != [] && trimmed[0] == '-';
    var unsigned := if trimmed != [] && (trimmed[0] == '-' || trimmed[0] == '+') then trimmed[1..] else trimmed;
    var bare := if |unsigned| >= 2 && unsigned[0] == '0' && unsigned[1] in "xX" then unsigned[2..] else unsigned;
    if Digits(bare) == [] then None
    else
      var value: int := Value16(Digits(bare));
      Some(if negative then -value else value)
  }

  lemma OneCharacter(c: char)
    ensures Digits([c]) == (if IsHex(c) then [c] else []) && Digits([]) == []
    ensures TrimStart([c]) == (if IsJsSpace(c) then [] else [c]) && TrimStart([]) == []
    ensures IsHex(c) ==> Value16([c]) == Nibble(c)
  {
    assert [c][1..] == [] && [c][..0] == [] && Value16([]) == 0;
  }

  lemma TwoCharacters(c: char, d: char)
    ensures Digits([c, d]) == if !IsHex(c) then [] else if IsHex(d) then [c, d] else [c]
    ensures TrimStart([c, d]) == if !IsJsSpace(c) then [c, d] else if IsJsSpace(d) then [] else [d]
    ensures IsHex(c) && IsHex(d) ==> Value16([c, d]) == Nibble(c) * 16 + Nibble(d)
  {
    OneCharacter(c);
    OneCharacter(d);
    assert [c, d][1..] == [d] && [c, d][..1] == [c];
  }

  lemma ZeroDigit()
    ensures Nibble('0') == 0
  {
  }

  /** On pairs, the code is what `parseInt` gives, NaN counting as 0. */
  lemma PairCodeParses(pair: string)
    requires 1 <= |pair| <= 2
    ensures PairCode(pair) == match ParseInt16(pair) case None => 0 case Some(v) => v
  {
    hide Nibble, Digits, TrimStart, Value16;
    OneCharacter(pair[0]);
    if |pair| == 1 {
      assert pair == [pair[0]] && [pair[0]][1..] == [];
    } else {
      OneCharacter(pair[1]);
      TwoCharacters(pair[0], pair[1]);
      ZeroDigit();
      assert pair == [pair[0], pair[1]] && pair[1..] == [pair[1]] && pair[2..] == [] && [pair[1]][1..] == [];
    }
  }

  function PairCodes(hex: string): (codes: seq<int>) {
    if |hex| == 0 then []
    else if |hex| == 1 then [PairCode(hex)]
    else [PairCode(hex[..2])] + PairCodes(hex[2..])
  }

  /** On hexadecimal digits the codes are the bytes. */
  lemma {:induction false} HexCodes(hex: string)
    requires AllHex(hex)
    ensures PairCodes(hex) == HexBytes(hex)
  {
    hide Nibble;
    if |hex| == 1 {
      assert hex[0] in hex;
    } else if |hex| >= 2 {
      assert hex[0] in hex && hex[1] in hex;
      assert PairCode(hex[..2]) == Nibble(hex[0]) * 16 + Nibble(hex[1]);
      HexCodes(hex[2..]);
    }
  }

  /** `new Uint8Array(codes)` */
  function Wrapped(codes: seq<int>): (b: seq<byte>)
    ensures |b| == |codes| && forall i :: 0 <= i < |b| ==> b[i] == codes[i] % 0x100
  {
    seq(|codes|, i requires 0 <= i < |codes| => codes[i] % 0x100)
  }

  lemma WrappedBytes(b: seq<byte>)
    ensures Wrapped(b) == b
  {
  }

  /** `btoa` of character codes: it refuses those above 255, as which negative numbers arrive. */
  function BtoaCodes(codes: seq<int>): Option<string> {
    if forall i :: 0 <= i < |codes| ==> 0 <= codes[i] < 0x100 then Some(Base64.Encode(Wrapped(codes))) else None
  }

  /** None stands for the exception of `btoa`. */
  method HexToBase64(hex: string) returns (r: Option<string>)
    ensures r == BtoaCodes(PairCodes(hex))
    ensures AllHex(hex) ==> r == Some(HexBase64(hex))
  {
    hide HexBytes, Base64.Encode, PairCodes;
    var codes := PushCodes([], hex);
    assert codes == PairCodes(hex);
    if AllHex(hex) {
      HexCodes(hex);
      WrappedBytes(HexBytes(hex));
    }
    return BtoaCodes(codes);
  }

  /** The loop both encoders share: two characters at a time onto the list. */
  method PushCodes(before: seq<int>, hex: string) returns (codes: seq<int>)
    ensures codes == before + PairCodes(hex)
  {
    hide PairCode;
    codes := before;
    var i := 0;
    while i < |hex|
      invariant 0 <= i <= |hex| + 1 && i % 2 == 0
      invariant i <= |hex| ==> codes + PairCodes(hex[i..]) == before + PairCodes(hex)
      invariant i > |hex| ==> codes == before + PairCodes(hex)
      decreases |hex| - i
    {
      var pair := hex[i..if i + 2 <= |hex| then i + 2 else |hex|];
      if i + 1 < |hex| {
        assert hex[i..][..2] == pair && hex[i..][2..] == hex[i + 2..];
      } else {
        assert hex[i..] == pair;
      }
      codes := codes + [PairCode(pair)];
      i := i + 2;
    }
  }

  /** `segment.padStart(4, '0')` */
  function PadStart(segment: string): (r: string)
    ensures |r| == if |segment| < 4 then 4 else |segment|
    decreases if |segment| < 4 then 4 - |segment| else 0
  {
    if |segment| >= 4 then segment else PadStart(['0'] + segment)
  }

  lemma {:induction false} PadStartHex(segment: string)
    requires AllHex(segment)
    ensures AllHex(PadStart(segment))
    decreases if |segment| < 4 then 4 - |segment| else 0
  {
    if |segment| < 4 { PadStartHex(['0'] + segment); }
  }

  predicate HexSegments(segments: seq<string>) { forall s :: s in segments ==> AllHex(s) }

  function SegmentBytes(segments: seq<string>): seq<byte>
    requires HexSegments(segments)
  {
    if segments == [] then []
    else
      PadStartHex(segments[0]);
      HexBytes(PadStart(segments[0])) + SegmentBytes(segments[1..])
  }

  function SegmentCodes(segments: seq<string>): seq<int> {
    if segments == [] then [] else PairCodes(PadStart(segments[0])) + SegmentCodes(segments[1..])
  }

  lemma {:induction false} SegmentCodesHex(segments: seq<string>)
    requires HexSegments(segments)
    ensures SegmentCodes(segments) == SegmentBytes(segments)
  {
    hide PairCodes, HexBytes, PadStart;
    if segments != [] {
      PadStartHex(segments[0]);
      HexCodes(PadStart(segments[0]));
      SegmentCodesHex(segments[1..]);
    }
  }

  method Ipv6ToBase64(ip: string) returns (r: string)
    ensures r == Base64.Encode(Wrapped(SegmentCodes(Split(ip, ':'))))
    ensures HexSegments(Split(ip, ':')) ==> r == Base64.Encode(SegmentBytes(Split(ip, ':')))
  {
    hide PairCodes, Base64.Encode, PadStart, Split, HexSegments;
    var segments := Split(ip, ':');
    var codes: seq<int> := [];
    for k := 0 to |segments|
      invariant codes + SegmentCodes(segments[k..]) == SegmentCodes(segments)
    {
      codes := PushCodes(codes, PadStart(segments[k]));
      assert segments[k..][1..] == segments[k + 1..];
    }
    assert codes == SegmentCodes(segments);
    if HexSegments(segments) {
      SegmentCodesHex(segments);
      WrappedBytes(SegmentBytes(segments));
    }
    return Base64.Encode(Wrapped(codes));
  }

  /** ASCII text, which is its own UTF-8 encoding. */
  predicate Ascii7(s: string) { forall c :: c in s ==> c < 128 as char }

  function CodeOf(c: char): byte { if c < 128 as char then c as int else 0 }

  function TextBytes(s: string): (b: seq<byte>)
    requires Ascii7(s)
    ensures |b| == |s|
  {
    seq(|s|, i requires 0 <= i < |s| => CodeOf(s[i]))
  }

  /** What the candidate pattern finds for id and port. */
  predicate Numbered(c: Candidate) {
    && c.port != [] && (forall d :: d in c.port ==> '0' <= d <= '9')
    && c.id != [] && (forall d :: d in c.id ==> '0' <= d <= '9')
  }

  lemma NumberedMeans(c: Candidate)
    ensures Numbered(c) <==>
            && c.port != [] && (forall d :: d in c.port ==> 48 <= d as int <= 57)
            && c.id != [] && (forall d :: d in c.id ==> 48 <= d as int <= 57)
  {
  }

  /** A candidate whose address is hexadecimal segments or ASCII. */
  predicate Printable(c: Candidate) {
    && Numbered(c)
    && if ':' in c.ip then HexSegments(Split(c.ip, ':')) else Ascii7(c.ip)
  }

  lemma DigitsAscii(c: Candidate)
    requires Printable(c) && ':' !in c.ip
    ensures Ascii7(c.ip + ":" + c.port)
  {
  }

  function TypeLetter(kind: CandidateType): char { if kind == Srflx then 's' else 'h' }

  /** The field of one candidate. */
  function Field(c: Candidate): string
    requires Printable(c)
  {
    if ':' in c.ip then
      ['6', TypeLetter(c.kind)] + Base64.Encode(SegmentBytes(Split(c.ip, ':'))) + ":" + c.port + "#" + c.id
    else
      DigitsAscii(c);
      ['4', TypeLetter(c.kind)] + Base64.Encode(TextBytes(c.ip + ":" + c.port)) + "#" + c.id
  }

  function Fields(cands: seq<Candidate>): (fields: seq<string>)
    requires forall c :: c in cands ==> Printable(c)
    ensures |fields| == |cands| && forall i :: 0 <= i < |cands| ==> fields[i] == Field(cands[i])
  {
    seq(|cands|, i requires 0 <= i < |cands| => Field(cands[i]))
  }

  function Printed(fingerprint: string, pwd: string, ufrag: string, cands: seq<Candidate>): string
    requires AllHex(Remove(fingerprint, ':')) && forall c :: c in cands ==> Printable(c)
  {
    Join([HexBase64(Remove(fingerprint, ':')), pwd, ufrag] + Fields(cands), ".")
  }

  function CharCodes(s: string): (codes: seq<int>)
    ensures |codes| == |s| && forall i :: 0 <= i < |s| ==> codes[i] == s[i] as int
  {
    seq(|s|, i requires 0 <= i < |s| => s[i] as int)
  }

  /** The field the browser prints for any candidate, or the exception of `btoa`. */
  function BrowserField(c: Candidate): Option<string> {
    if ':' in c.ip then
      var address := Base64.Encode(Wrapped(SegmentCodes(Split(c.ip, ':'))));
      Some(['6', TypeLetter(c.kind)] + address + ":" + c.port + "#" + c.id)
    else
      match BtoaCodes(CharCodes(c.ip + ":" + c.port))
      case None => None
      case Some(raw) => Some(['4', TypeLetter(c.kind)] + raw + "#" + c.id)
  }

  function BrowserFields(cands: seq<Candidate>): Option<seq<string>> {
    if cands == [] then Some([])
    else
      match (BrowserFields(cands[..|cands| - 1]), BrowserField(cands[|cands| - 1]))
      case (Some(before), Some(field)) => Some(before + [field])
      case _ => None
  }

  /** The whole answer, or the exception. */
  function BrowserAnswer(fingerprint: string, pwd: string, ufrag: string, cands: seq<Candidate>): Option<string> {
    match (BtoaCodes(PairCodes(Remove(fingerprint, ':'))), BrowserFields(cands))
    case (Some(printed), Some(fields)) => Some(Join([printed, pwd, ufrag] + fields, "."))
    case _ => None
  }

  /** For printable candidates the browser's field is the one described. */
  lemma BrowserFieldPrints(c: Candidate)
    requires Printable(c)
    ensures BrowserField(c) == Some(Field(c))
  {
    hide Base64.Encode, SegmentCodes, SegmentBytes;
    if ':' in c.ip {
      SegmentCodesHex(Split(c.ip, ':'));
      WrappedBytes(SegmentBytes(Split(c.ip, ':')));
    } else {
      DigitsAscii(c);
      var text := c.ip + ":" + c.port;
      forall i | 0 <= i < |text| ensures text[i] as int == TextBytes(text)[i] { assert text[i] in text; }
      assert Wrapped(CharCodes(text)) == TextBytes(text);
    }
  }

  lemma {:induction false} BrowserFieldsPrint(cands: seq<Candidate>)
    requires forall c :: c in cands ==> Printable(c)
    ensures BrowserFields(cands) == Some(Fields(cands))
  {
    hide Printable, Field, BrowserField;
    if cands != [] {
      var init, last := cands[..|cands| - 1], cands[|cands| - 1];
      assert last in cands && forall c :: c in init ==> c in cands;
      BrowserFieldsPrint(init);
      BrowserFieldPrints(last);
      assert Fields(cands) == Fields(init) + [Field(last)];
    }
  }

  /** For hexadecimal fingerprints and printable candidates the browser prints the described line. */
  lemma BrowserPrints(fingerprint: string, pwd: string, ufrag: string, cands: seq<Candidate>)
    requires AllHex(Remove(fingerprint, ':')) && forall c :: c in cands ==> Printable(c)
    ensures BrowserAnswer(fingerprint, pwd, ufrag, cands) == Some(Printed(fingerprint, pwd, ufrag, cands))
  {
    hide Printable, BrowserFields, Fields, Base64.Encode, PairCodes, HexBytes, Join, Remove;
    HexCodes(Remove(fingerprint, ':'));
    WrappedBytes(HexBytes(Remove(fingerprint, ':')));
    BrowserFieldsPrint(cands);
  }

  function PairAt(hex: string, at: nat): (pair: string)
    requires at < |hex|
    ensures 1 <= |pair| <= 2
  {
    hex[at..if at + 2 <= |hex| then at + 2 else |hex|]
  }

  lemma PairAtTail(hex: string, at: nat)
    requires 2 <= at < |hex|
    ensures PairAt(hex[2..], at - 2) == PairAt(hex, at)
  {
    var to := if at + 2 <= |hex| then at + 2 else |hex|;
    assert hex[2..][at - 2..to - 2] == hex[at..to];
  }

  lemma PairCodesStep(hex: string)
    requires hex != []
    ensures PairCodes(hex) == [PairCode(PairAt(hex, 0))] + if |hex| < 2 then [] else PairCodes(hex[2..])
  {
    hide PairCode;
    if |hex| == 1 { assert PairAt(hex, 0) == hex; }
  }

  lemma {:induction false} PairCodesAt(hex: string, k: nat)
    requires 2 * k < |hex|
    ensures k < |PairCodes(hex)| == (|hex| + 1) / 2
    ensures PairCodes(hex)[k] == PairCode(PairAt(hex, 2 * k))
  {
    hide PairCode, PairCodes;
    PairCodesLength(hex);
    PairCodesStep(hex);
    if k > 0 {
      PairCodesAt(hex[2..], k - 1);
      PairAtTail(hex, 2 * k);
    }
  }

  lemma {:induction false} PairCodesLength(hex: string)
    ensures |PairCodes(hex)| == (|hex| + 1) / 2
  {
    if |hex| >= 2 { PairCodesLength(hex[2..]); }
  }

  /** A pair of the fingerprint starts with a minus sign before a digit that is not zero. */
  ghost predicate Negative(hex: string, k: nat) {
    2 * k + 1 < |hex| && hex[2 * k] == '-' && IsHex(hex[2 * k + 1]) && hex[2 * k + 1] != '0'
  }

  ghost predicate AnyNegative(hex: string) { exists k: nat :: Negative(hex, k) }

  lemma FingerprintThrows(hex: string)
    ensures BtoaCodes(PairCodes(hex)) == None <==> AnyNegative(hex)
  {
    hide Base64.Encode, PairCodes, Negative;
    var codes := PairCodes(hex);
    forall k: nat | k < |codes| ensures codes[k] < 0x100 && (codes[k] < 0 <==> Negative(hex, k)) {
      NegativeCode(hex, k);
    }
    forall k: nat | Negative(hex, k) ensures k < |codes| { NegativeCode(hex, k); }
  }

  lemma NegativeCode(hex: string, k: nat)
    ensures |PairCodes(hex)| == (|hex| + 1) / 2
    ensures Negative(hex, k) ==> k < |PairCodes(hex)|
    ensures k < |PairCodes(hex)| ==> PairCodes(hex)[k] < 0x100 && (PairCodes(hex)[k] < 0 <==> Negative(hex, k))
  {
    PairCodesLength(hex);
    if 2 * k < |hex| { PairCodesAt(hex, k); }
  }

  /** A candidate whose address is not IPv6 and holds a character above 255. */
  ghost predicate Wide(c: Candidate) {
    ':' !in c.ip && exists d :: d in c.ip + ":" + c.port && d as int >= 0x100
  }

  ghost predicate AnyWide(cands: seq<Candidate>) { exists c :: c in cands && Wide(c) }

  lemma {:induction false} FieldsThrow(cands: seq<Candidate>)
    ensures BrowserFields(cands) == None <==> AnyWide(cands)
  {
    hide Base64.Encode, Wide, BrowserField;
    if cands != [] {
      var init, last := cands[..|cands| - 1], cands[|cands| - 1];
      assert cands == init + [last];
      FieldsThrow(init);
      FieldThrows(last);
    }
  }

  lemma FieldThrows(c: Candidate)
    ensures BrowserField(c) == None <==> Wide(c)
  {
    hide Base64.Encode, SegmentCodes;
    var text := c.ip + ":" + c.port;
    var codes := CharCodes(text);
    assert forall i :: 0 <= i < |text| ==> codes[i] == text[i] as int && text[i] in text;
    if ':' !in c.ip {
      if d :| d in text && d as int >= 0x100 {
        var i :| 0 <= i < |text| && text[i] == d;
        assert codes[i] >= 0x100;
      }
    }
  }

  /** Exactly when accepting an offer ends in the exception of `btoa`. */
  lemma BrowserThrowsIff(fingerprint: string, pwd: string, ufrag: string, cands: seq<Candidate>)
    ensures BrowserAnswer(fingerprint, pwd, ufrag, cands) == None <==>
            AnyNegative(Remove(fingerprint, ':')) || AnyWide(cands)
  {
    hide AnyNegative, AnyWide, BtoaCodes, PairCodes, BrowserFields, Remove;
    FingerprintThrows(Remove(fingerprint, ':'));
    FieldsThrow(cands);
    var printed, fields := BtoaCodes(PairCodes(Remove(fingerprint, ':'))), BrowserFields(cands);
    assert BrowserAnswer(fingerprint, pwd, ufrag, cands) == None <==> printed == None || fields == None;
  }

  /** None stands for the exception of `btoa`, from the fingerprint or from any candidate. */
  method AcceptOffer(fingerprint: string, pwd: string, ufrag: string, cands: seq<Candidate>)
    returns (answer: Option<string>)
    ensures answer == BrowserAnswer(fingerprint, pwd, ufrag, cands)
  {
    hide BrowserField, BtoaCodes, AllHex;
    var fingerPrint := HexToBase64(Remove(fingerprint, ':'));
    if fingerPrint == None { return None; }
    var shortSdp := fingerPrint.value + "." + pwd + "." + ufrag;
    ghost var heads, fields: seq<string> := [fingerPrint.value, pwd, ufrag], [];
    JoinAppend([fingerPrint.value], pwd, ".");
    JoinAppend([fingerPrint.value, pwd], ufrag, ".");
    assert heads == [fingerPrint.value, pwd] + [ufrag] && [fingerPrint.value] + [pwd] == [fingerPrint.value, pwd];
    assert heads + fields == heads;
    for k := 0 to |cands|
      invariant BrowserFields(cands[..k]) == Some(fields)
      invariant shortSdp == Join(heads + fields, ".")
    {
      var field := PrintField(cands[k]);
      assert cands[..k + 1][..k] == cands[..k];
      if field == None {
        BrowserFieldsFail(cands, k + 1);
        return None;
      }
      assert heads + (fields + [field.value]) == (heads + fields) + [field.value];
      JoinAppend(heads + fields, field.value, ".");
      shortSdp := shortSdp + "." + field.value;
      fields := fields + [field.value];
    }
    assert cands[..|cands|] == cands;
    return Some(shortSdp);
  }

  lemma {:induction false} BrowserFieldsFail(cands: seq<Candidate>, k: nat)
    requires k <= |cands| && BrowserFields(cands[..k]) == None
    ensures BrowserFields(cands) == None
    decreases |cands|
  {
    if k == |cands| {
      assert cands[..k] == cands;
    } else {
      var init := cands[..|cands| - 1];
      assert init[..k] == cands[..k];
      BrowserFieldsFail(init, k);
    }
  }

  method PrintField(c: Candidate) returns (field: Option<string>)
    ensures field == BrowserField(c)
    ensures Printable(c) ==> field == Some(Field(c))
  {
    hide BtoaCodes, SegmentCodes, Field, Printable, Base64.Encode;
    if Printable(c) { BrowserFieldPrints(c); }
    var kind := if c.kind == Srflx then 's' else 'h';
    if ':' in c.ip {
      var address := Ipv6ToBase64(c.ip);
      field := Some(['6', kind] + address + ":" + c.port + "#" + c.id);
    } else {
      var raw := BtoaCodes(CharCodes(c.ip + ":" + c.port));
      field := if raw == None then None else Some(['4', kind] + raw.value + "#" + c.id);
    }
  }

  // ---- The Java reader -----------------------------------------------------------------

  /** `new String(bytes)` for the ASCII bytes the printer produces. */
  function BytesText(b: seq<byte>): (s: string)
    ensures |s| == |b|
  {
    seq(|b|, i requires 0 <= i < |b| => b[i] as char)
  }

  /** What one candidate field gives: an exception, a field of unknown family, or a candidate. */
  datatype Line = Throws | Ignored | Found(candidate: Candidate)

  function ReadField(line: string): Line {
    var k := IndexOf(line, '#');
    if |line| < 2 || k < 2 then Throws
    else
      var kind, raw, id := if line[1] == 's' then Srflx else Host, line[2..k], line[k + 1..];
      if line[0] == '4' then
        match Base64.Decode(raw)
        case None => Throws
        case Some(b) =>
          var parts := JavaSplit(BytesText(b), ':');
          if |parts| < 2 then Throws else Found(Candidate(id, parts[0], parts[1], kind))
      else if line[0] == '6' then
        var parts := JavaSplit(raw, ':');
        if |parts| < 2 || Base64.Decode(parts[0]) == None then Throws
        else
          var hex := BytesToHex(Base64.Decode(parts[0]).value);
          Found(Candidate(id, Join(Chunks(hex, 4), ":"), parts[1], kind))
      else Ignored
  }

  /** The candidates of a list of fields, in order; None if a field throws. */
  function ReadFields(lines: seq<string>): Option<seq<Candidate>> {
    if lines == [] then Some([])
    else
      match ReadFields(lines[..|lines| - 1])
      case None => None
      case Some(before) =>
        match ReadField(lines[|lines| - 1])
        case Throws => None
        case Ignored => Some(before)
        case Found(c) => Some(before + [c])
  }

  function ReadFingerprint(line: string): Option<string> {
    match Base64.Decode(line)
    case None => None
    case Some(b) => Some(UpperCase(Join(Chunks(BytesToHex(b), 2), ":")))
  }

  datatype Outcome =
    | PassedThrough(sdp: string)
    | Failed
    | NoCandidates
    | Answer(fingerprint: string, pwd: string, ufrag: string, candidates: seq<Candidate>,
             connection: string, appPort: string)

  /** The connection line's address of the first candidate. */
  function Connection(c: Candidate): string {
    (if ':' in c.ip then "IP6 " else "IP4 ") + c.ip
  }

  /** `base64toHex` */
  method Base64ToHex(line: string) returns (hex: Option<string>)
    ensures hex == match Base64.Decode(line) case None => None case Some(b) => Some(BytesToHex(b))
  {
    var decodedLine := Base64.Decode(line);
    if decodedLine == None { return None; }
    var chars := BytesToHexChars(decodedLine.value);
    return Some(chars);
  }

  /** The whole pieces of `n` characters, taken one after the other, and joined with colons. */
  method Pieces(hex: string, n: nat) returns (joined: string)
    requires n > 0
    ensures joined == Join(Chunks(hex, n), ":")
  {
    hide Join;
    var pieces: seq<string> := [];
    var at := 0;
    while at + n <= |hex|
      invariant at <= |hex| && pieces + Chunks(hex[at..], n) == Chunks(hex, n)
    {
      assert hex[at..][..n] == hex[at..at + n] && hex[at..][n..] == hex[at + n..];
      pieces := pieces + [hex[at..at + n]];
      at := at + n;
    }
    assert pieces == Chunks(hex, n);
    joined := Join(pieces, ":");
  }

  /** One field of a candidate, read as the loop does. */
  method ReadLine(line: string) returns (r: Line)
    ensures r == ReadField(line)
  {
    hide Base64.Decode, JavaSplit, Chunks, BytesToHex, BytesText, Join;
    if |line| < 2 { return Throws; }
    var ipv := line[0];
    var kind := if line[1] == 's' then Srflx else Host;
    var idIdx := IndexOf(line, '#');
    if idIdx < 2 { return Throws; }
    var rawIp, id := line[2..idIdx], line[idIdx + 1..];
    match ipv {
      case '4' =>
        var decoded := Base64.Decode(rawIp);
        if decoded == None { return Throws; }
        var ipv4Parts := JavaSplit(BytesText(decoded.value), ':');
        if |ipv4Parts| < 2 { return Throws; }
        return Found(Candidate(id, ipv4Parts[0], ipv4Parts[1], kind));
      case '6' =>
        var splitV6 := JavaSplit(rawIp, ':');
        if splitV6 == [] { return Throws; }
        var hexIpv6 := Base64ToHex(splitV6[0]);
        if hexIpv6 == None || |splitV6| < 2 { return Throws; }
        var ipv6 := Pieces(hexIpv6.value, 4);
        return Found(Candidate(id, ipv6, splitV6[1], kind));
      case _ => return Ignored;
    }
  }

  function ReadPieces(pieces: seq<string>): Outcome {
    if pieces == [] then NoCandidates
    else
      match ReadFingerprint(pieces[0])
      case None => Failed
      case Some(fingerprint) =>
        if |pieces| < 3 then NoCandidates
        else
          match ReadFields(pieces[3..])
          case None => Failed
          case Some(cands) =>
            if cands == [] then NoCandidates
            else Answer(fingerprint, pieces[1], pieces[2], cands, Connection(cands[0]), cands[0].port)
  }

  function Read(remoteDescription: string): Outcome {
    if ['v', '='] <= remoteDescription then PassedThrough(remoteDescription)
    else ReadPieces(JavaSplit(Remove(remoteDescription, '\n'), '.'))
  }

  method ReadCompressedSdp(remoteDescription: string) returns (r: Outcome)
    ensures r == Read(remoteDescription)
  {
    hide ReadField, Base64.Decode, JavaSplit, Chunks, BytesToHex, UpperCase, Join;
    if ['v', '='] <= remoteDescription { return PassedThrough(remoteDescription); }
    var cValue: Option<string>, appPort: Option<string> := None, None;
    var fingerprint: Option<string>, iceLine: Option<string>, iceFrag: Option<string> := None, None, None;
    var candidates: seq<Candidate> := [];
    var lines := JavaSplit(Remove(remoteDescription, '\n'), '.');
    for k := 0 to |lines|
      invariant fingerprint == (if k > 0 then ReadFingerprint(lines[0]) else None) && (k > 0 ==> fingerprint.Some?)
      invariant iceLine == (if k > 1 then Some(lines[1]) else None)
      invariant iceFrag == (if k > 2 then Some(lines[2]) else None)
      invariant k <= 3 ==> candidates == []
      invariant k > 3 ==> ReadFields(lines[3..k]) == Some(candidates)
      invariant candidates == [] ==> cValue == None && appPort == None
      invariant candidates != [] ==> cValue == Some(Connection(candidates[0])) && appPort == Some(candidates[0].port)
    {
      var line := lines[k];
      if fingerprint == None {
        var hex := Base64ToHex(line);
        if hex == None { return Failed; }
        var pairs := Pieces(hex.value, 2);
        fingerprint := Some(UpperCase(pairs));
      } else if iceLine == None {
        iceLine := Some(line);
      } else if iceFrag == None {
        iceFrag := Some(line);
      } else {
        assert lines[3..k + 1][..k - 3] == lines[3..k] && lines[3..k + 1][k - 3] == line;
        var found := ReadLine(line);
        if found == Throws {
          ReadFieldsFail(lines[3..], k - 2);
          return Failed;
        }
        if found.Found? {
          if cValue == None {
            cValue := Some((if ':' in found.candidate.ip then "IP6 " else "IP4 ") + found.candidate.ip);
            appPort := Some(found.candidate.port);
          }
          candidates := candidates + [found.candidate];
        }
      }
    }
    if |lines| >= 3 { assert lines[3..|lines|] == lines[3..]; }
    if candidates == [] { return NoCandidates; }
    return Answer(fingerprint.value, iceLine.value, iceFrag.value, candidates, cValue.value, appPort.value);
  }

  lemma {:induction false} ReadFieldsFail(lines: seq<string>, k: nat)
    requires k <= |lines| && ReadFields(lines[..k]) == None
    ensures ReadFields(lines) == None
    decreases |lines|
  {
    if k == |lines| {
      assert lines[..k] == lines;
    } else {
      var init := lines[..|lines| - 1];
      assert init[..k] == lines[..k];
      ReadFieldsFail(init, k);
    }
  }
}
