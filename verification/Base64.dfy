/** The browser's `btoa` (section 4 of RFC 4648) without its padding, and Java's basic decoder. */
module Base64 {
  import opened Bytes

  predicate InAlphabet(c: char) {
    'A' <= c <= 'Z' || 'a' <= c <= 'z' || '0' <= c <= '9' || c == '+' || c == '/'
  }

  function Letter(i: nat): (c: char)
    requires i < 64
    ensures InAlphabet(c)
  {
    if i < 26 then (i + 65) as char
    else if i < 52 then (i + 71) as char
    else if i < 62 then (i - 4) as char
    else if i == 62 then '+' else '/'
  }

  function Index(c: char): (i: nat)
    requires InAlphabet(c)
    ensures i < 64
  {
    if 'A' <= c <= 'Z' then c as int - 65
    else if 'a' <= c <= 'z' then c as int - 71
    else if '0' <= c <= '9' then c as int + 4
    else if c == '+' then 62 else 63
  }

  lemma IndexLetter(i: nat)
    requires i < 64
    ensures Index(Letter(i)) == i
  {
  }

  function Btoa(b: seq<byte>): string {
    if |b| == 0 then []
    else if |b| == 1 then [Letter(b[0] / 4), Letter(b[0] % 4 * 16), '=', '=']
    else if |b| == 2 then [Letter(b[0] / 4), Letter(b[0] % 4 * 16 + b[1] / 16), Letter(b[1] % 16 * 4), '=']
    else
      [Letter(b[0] / 4), Letter(b[0] % 4 * 16 + b[1] / 16), Letter(b[1] % 16 * 4 + b[2] / 64), Letter(b[2] % 64)]
      + Btoa(b[3..])
  }

  /** `replaceAll(/=+$/g, "")` */
  function Unpad(s: string): string {
    if s != [] && s[|s| - 1] == '=' then Unpad(s[..|s| - 1]) else s
  }

  function Encode(b: seq<byte>): string { Unpad(Btoa(b)) }

  /** Bytes of a run of letters; a final group of two or three letters yields one or two bytes. */
  function Groups(s: string): (b: seq<byte>)
    requires |s| % 4 != 1 && forall c :: c in s ==> InAlphabet(c)
  {
    if |s| == 0 then []
    else if |s| == 2 then [Index(s[0]) * 4 + Index(s[1]) / 16]
    else if |s| == 3 then [Index(s[0]) * 4 + Index(s[1]) / 16, Index(s[1]) % 16 * 16 + Index(s[2]) / 4]
    else
      [Index(s[0]) * 4 + Index(s[1]) / 16, Index(s[1]) % 16 * 16 + Index(s[2]) / 4, Index(s[2]) % 4 * 64 + Index(s[3])]
      + Groups(s[4..])
  }

  /** Padding is optional, but if present it must complete the last group of four. */
  function Core(s: string): (core: string)
    ensures core <= s
  {
    var n := |s|;
    if n > 0 && n % 4 == 0 && s[n - 1] == '=' then
      if s[n - 2] == '=' then s[..n - 2] else s[..n - 1]
    else s
  }

  /** `Base64.getDecoder().decode`; None is its IllegalArgumentException. */
  function Decode(s: string): Option<seq<byte>> {
    var core := Core(s);
    if |core| % 4 != 1 && forall c :: c in core ==> InAlphabet(c) then Some(Groups(core)) else None
  }

  /** The encoding without padding, one group at a time. */
  function Letters(b: seq<byte>): (s: string)
    ensures forall c :: c in s ==> InAlphabet(c)
    ensures |s| % 4 != 1 && (b != [] ==> |s| >= 2)
  {
    if |b| == 0 then []
    else if |b| == 1 then [Letter(b[0] / 4), Letter(b[0] % 4 * 16)]
    else if |b| == 2 then [Letter(b[0] / 4), Letter(b[0] % 4 * 16 + b[1] / 16), Letter(b[1] % 16 * 4)]
    else
      [Letter(b[0] / 4), Letter(b[0] % 4 * 16 + b[1] / 16), Letter(b[1] % 16 * 4 + b[2] / 64), Letter(b[2] % 64)]
      + Letters(b[3..])
  }

  lemma {:induction false} BtoaPads(b: seq<byte>)
    ensures Btoa(b) == Letters(b) + (if |b| % 3 == 0 then [] else if |b| % 3 == 1 then ['=', '='] else ['='])
  {
    hide Letter;
    if |b| >= 3 { BtoaPads(b[3..]); }
  }

  /** Stripping the padding leaves exactly the letters. */
  lemma EncodeIsLetters(b: seq<byte>)
    ensures Encode(b) == Letters(b)
  {
    hide Letters, Btoa, InAlphabet, Unpad;
    BtoaPads(b);
    UnpadLetters(Letters(b));
    UnpadOne(Letters(b));
    UnpadOne(Letters(b) + ['=']);
    assert Letters(b) + ['='] + ['='] == Letters(b) + ['=', '='];
    assert Letters(b) + [] == Letters(b);
  }

  lemma UnpadOne(s: string)
    ensures Unpad(s + ['=']) == Unpad(s)
  {
    assert (s + ['='])[..|s|] == s;
  }

  lemma UnpadLetters(s: string)
    requires forall c :: c in s ==> InAlphabet(c)
    ensures Unpad(s) == s
  {
    if s != [] { assert s[|s| - 1] in s; }
  }

  lemma {:induction false} GroupsLetters(b: seq<byte>)
    ensures Groups(Letters(b)) == b
  {
    hide Letter, Index, InAlphabet;
    if |b| >= 3 {
      GroupsLetters(b[3..]);
      ThreeBytes(b[0], b[1], b[2]);
      GroupsStep(Letters(b));
      assert Letters(b)[4..] == Letters(b[3..]);
      assert b == [b[0], b[1], b[2]] + b[3..];
    } else if |b| == 2 {
      ThreeBytes(b[0], b[1], 0);
    } else if |b| == 1 {
      ThreeBytes(b[0], 0, 0);
    }
  }

  lemma GroupsStep(s: string)
    requires |s| >= 4 && |s| % 4 != 1 && forall c :: c in s ==> InAlphabet(c)
    ensures Groups(s) ==
            [Index(s[0]) * 4 + Index(s[1]) / 16, Index(s[1]) % 16 * 16 + Index(s[2]) / 4,
             Index(s[2]) % 4 * 64 + Index(s[3])]
            + Groups(s[4..])
  {
    hide Index, InAlphabet;
  }

  lemma ThreeBytes(x: byte, y: byte, z: byte)
    ensures Index(Letter(x / 4)) * 4 + Index(Letter(x % 4 * 16 + y / 16)) / 16 == x
    ensures Index(Letter(x % 4 * 16 + y / 16)) % 16 * 16 + Index(Letter(y % 16 * 4 + z / 64)) / 4 == y
    ensures Index(Letter(y % 16 * 4 + z / 64)) % 4 * 64 + Index(Letter(z % 64)) == z
  {
    hide Letter, Index;
    IndexLetter(x / 4);
    IndexLetter(x % 4 * 16 + y / 16);
    IndexLetter(y % 16 * 4 + z / 64);
    IndexLetter(z % 64);
  }

  /** The printed letters collide with none of the delimiters used around them. */
  lemma NoDelimiters(b: seq<byte>)
    ensures var s := Encode(b); '.' !in s && ':' !in s && '#' !in s && '\n' !in s && '=' !in s
  {
    hide Encode;
    RoundTrip(b);
  }

  /** Unpadded base64 is invertible at every length, and never contains a delimiter or padding. */
  lemma RoundTrip(b: seq<byte>)
    ensures Decode(Encode(b)) == Some(b)
    ensures forall c :: c in Encode(b) ==> InAlphabet(c)
    ensures if b == [] then Encode(b) == [] else |Encode(b)| >= 2
  {
    hide Groups, Btoa, Unpad;
    EncodeIsLetters(b);
    GroupsLetters(b);
    var s := Letters(b);
    assert s != [] ==> s[|s| - 1] in s && s[|s| - 1] != '=';
  }

  /** Test vectors of section 10 of RFC 4648 with their padding dropped: "f", "fo" and "foo". */
  lemma KnownAnswers()
    ensures Encode([102]) == "Zg" && Encode([102, 111]) == "Zm8" && Encode([102, 111, 111]) == "Zm9v"
  {
    hide Encode, Btoa, Unpad, Groups, Core, Decode, InAlphabet;
    EncodeIsLetters([102]);
    EncodeIsLetters([102, 111]);
    EncodeIsLetters([102, 111, 111]);
    assert Letters([]) == [];
  }

  /** The alphabet of table 1 of RFC 4648: capitals, small letters, digits, plus and slash. */
  lemma Alphabet(i: nat)
    ensures i < 26 ==> Letter(i) == "ABCDEFGHIJKLMNOPQRSTUVWXYZ"[i]
    ensures i < 26 ==> Letter(26 + i) == "abcdefghijklmnopqrstuvwxyz"[i]
    ensures i < 10 ==> Letter(52 + i) == "0123456789"[i]
    ensures Letter(62) == '+' && Letter(63) == '/'
  {
  }

  /** A character is in the alphabet exactly if it is one of the letters, and the decoder finds which. */
  lemma IndexIsInverse(c: char)
    ensures InAlphabet(c) <==> exists i | 0 <= i < 64 :: Letter(i) == c
    ensures InAlphabet(c) ==> Letter(Index(c)) == c
  {
    if InAlphabet(c) { assert Letter(Index(c)) == c; }
  }

  /** The decoder takes padding too, as the encoder writes it before it is stripped. */
  lemma PaddedRoundTrip(b: seq<byte>)
    ensures Decode(Btoa(b)) == Some(b)
  {
    hide Btoa, Letters, Groups, InAlphabet, Core;
    BtoaPads(b);
    GroupsLetters(b);
    LettersRest(b);
    NotPadding('=');
    PaddedCore(Letters(b), |b| % 3);
  }

  lemma PaddedCore(s: string, rest: nat)
    requires forall c :: c in s ==> c != '='
    requires rest < 3 && |s| % 4 == (if rest == 0 then 0 else rest + 1)
    ensures Core(s + (if rest == 0 then [] else if rest == 1 then ['=', '='] else ['='])) == s
  {
    assert s != [] ==> s[|s| - 1] in s;
    assert s + [] == s;
  }

  lemma NotPadding(c: char)
    requires c == '='
    ensures !InAlphabet(c)
  {
  }

  lemma {:induction false} LettersRest(b: seq<byte>)
    ensures |Letters(b)| % 4 == if |b| % 3 == 0 then 0 else |b| % 3 + 1
  {
    hide Letter, InAlphabet;
    if |b| >= 3 { LettersRest(b[3..]); }
  }

  /** Letters of the alphabet with the padding that completes their last group, or with none. */
  ghost predicate Padded(core: string, padding: string) {
    && (forall c :: c in core ==> InAlphabet(c))
    && match |core| % 4
       case 0 => padding == []
       case 1 => false
       case 2 => padding == [] || padding == ['=', '=']
       case _ => padding == [] || padding == ['=']
  }

  lemma PaddedCoreIs(core: string, padding: string)
    requires Padded(core, padding)
    ensures Core(core + padding) == core
  {
    hide InAlphabet;
    NotPadding('=');
    assert core != [] ==> core[|core| - 1] in core;
    assert core + [] == core;
  }

  lemma CorePadded(s: string)
    requires Decode(s).Some?
    ensures s == Core(s) + s[|Core(s)|..] && Padded(Core(s), s[|Core(s)|..])
  {
    hide Groups, InAlphabet, Core;
    CoreCut(s);
    assert s == Core(s) + s[|Core(s)|..];
  }

  /** What `Core` cuts off is at most two padding characters, from a text of whole groups. */
  lemma CoreCut(s: string)
    ensures var n, padding := |Core(s)|, s[|Core(s)|..];
            || padding == []
            || (padding == ['='] && n % 4 == 3)
            || (padding == ['=', '='] && n % 4 == 2)
  {
    var n := |Core(s)|;
    assert |s| == n + 1 ==> s[n..] == [s[n]];
    assert |s| == n + 2 ==> s[n..] == [s[n], s[n + 1]];
  }

  lemma DecodesIff(s: string)
    ensures Decode(s).Some? <==> exists core, padding :: s == core + padding && Padded(core, padding)
  {
    hide Groups, Core, Padded;
    if Decode(s).Some? { CorePadded(s); }
    if core, padding :| s == core + padding && Padded(core, padding) {
      PaddedCoreIs(core, padding);
      PaddedDecodes(core, padding);
    }
  }

  lemma PaddedDecodes(core: string, padding: string)
    requires Padded(core, padding)
    ensures |core| % 4 != 1 && forall c :: c in core ==> InAlphabet(c)
  {
  }
}
