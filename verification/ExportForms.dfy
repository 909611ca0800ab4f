/** Which of its two forms an exported field takes, in terms of the characters of the text
    (go/journal/reader_output.go:158-177, 204-223). Characters are written as section 3 of RFC 3629
    says. */
module ExportForms {
  import opened JournalGraph
  import opened Export

  // ----- characters and their bytes

  /** A character: any code point but the surrogates. */
  ghost predicate Scalar(c: nat) {
    c < 0xD800 || 0xE000 <= c <= 0x10FFFF
  }

  ghost function Tail(x: nat): uint8 {
    0x80 + x % 64
  }

  ghost function Encoded(c: nat): (b: bytes)
    requires Scalar(c)
    ensures |b| > 0
  {
    if c < 0x80 then [c]
    else if c < 0x800 then [0xC0 + c / 64, Tail(c)]
    else if c < 0x10000 then [0xE0 + c / 4096, Tail(c / 64), Tail(c)]
    else [0xF0 + c / 262144, Tail(c / 4096), Tail(c / 64), Tail(c)]
  }

  ghost predicate AllScalar(cs: seq<nat>) {
    forall i :: 0 <= i < |cs| ==> Scalar(cs[i])
  }

  ghost function Text(cs: seq<nat>): bytes
    requires AllScalar(cs)
  {
    if cs == [] then [] else Encoded(cs[0]) + Text(cs[1..])
  }

  // ----- decoding a character undoes writing it

  lemma TailDigits(c: nat)
    ensures c == c / 64 * 64 + c % 64
    ensures c / 64 == c / 4096 * 64 + (c / 64) % 64
    ensures c / 4096 == c / 262144 * 64 + (c / 4096) % 64
  {
  }

  lemma DecodeOne(c: nat, rest: bytes)
    requires Scalar(c) && c < 0x80
    ensures DecodeRune(Encoded(c) + rest) == Rune(c, 1)
  {
  }

  lemma DecodeTwo(c: nat, rest: bytes)
    requires 0x80 <= c < 0x800
    ensures DecodeRune(Encoded(c) + rest) == Rune(c, 2)
  {
    TailDigits(c);
    var s := Encoded(c) + rest;
    assert s[0] == 0xC0 + c / 64 && s[1] == Tail(c);
  }

  lemma DecodeThree(c: nat, rest: bytes)
    requires Scalar(c) && 0x800 <= c < 0x10000
    ensures DecodeRune(Encoded(c) + rest) == Rune(c, 3)
  {
    TailDigits(c);
    var s := Encoded(c) + rest;
    assert s[0] == 0xE0 + c / 4096 && s[1] == Tail(c / 64) && s[2] == Tail(c);
  }

  lemma DecodeFour(c: nat, rest: bytes)
    requires Scalar(c) && 0x10000 <= c
    ensures DecodeRune(Encoded(c) + rest) == Rune(c, 4)
  {
    TailDigits(c);
    var s := Encoded(c) + rest;
    assert s[0] == 0xF0 + c / 262144 && s[1] == Tail(c / 4096) && s[2] == Tail(c / 64) && s[3] == Tail(c);
  }

  lemma DecodeEncoded(c: nat, rest: bytes)
    requires Scalar(c)
    ensures DecodeRune(Encoded(c) + rest) == Rune(c, |Encoded(c)|)
  {
    if c < 0x80 { DecodeOne(c, rest); }
    else if c < 0x800 { DecodeTwo(c, rest); }
    else if c < 0x10000 { DecodeThree(c, rest); }
    else { DecodeFour(c, rest); }
  }

  lemma EncodeTwo(s: bytes)
    requires s != [] && DecodeRune(s).Rune? && DecodeRune(s).size == 2
    ensures var r := DecodeRune(s);
            Scalar(r.code) && s[..2] == Encoded(r.code)
  {
    Two(s[0] - 0xC0, Low(s[1]));
  }

  lemma EncodeThree(s: bytes)
    requires s != [] && DecodeRune(s).Rune? && DecodeRune(s).size == 3
    ensures var r := DecodeRune(s);
            Scalar(r.code) && s[..3] == Encoded(r.code)
  {
    Three(s[0] - 0xE0, Low(s[1]), Low(s[2]));
  }

  lemma EncodeFour(s: bytes)
    requires s != [] && DecodeRune(s).Rune? && DecodeRune(s).size == 4
    ensures var r := DecodeRune(s);
            Scalar(r.code) && s[..4] == Encoded(r.code)
  {
    Four(s[0] - 0xF0, Low(s[1]), Low(s[2]), Low(s[3]));
  }

  /** What decodes is the writing of a character. */
  lemma EncodeDecoded(s: bytes)
    requires s != [] && DecodeRune(s).Rune?
    ensures var r := DecodeRune(s);
            Scalar(r.code) && s[..r.size] == Encoded(r.code)
  {
    match DecodeRune(s).size
    case 1 =>
    case 2 => EncodeTwo(s);
    case 3 => EncodeThree(s);
    case _ => EncodeFour(s);
  }

  lemma Two(a: nat, b: nat)
    requires b < 64
    ensures (a * 64 + b) / 64 == a && (a * 64 + b) % 64 == b
  {
  }

  lemma DivideAgain(x: nat)
    ensures x / 4096 == x / 64 / 64 && x / 262144 == x / 64 / 64 / 64
  {
  }

  lemma Three(a: nat, b: nat, c: nat)
    requires b < 64 && c < 64
    ensures var x := a * 4096 + b * 64 + c;
            x / 4096 == a && (x / 64) % 64 == b && x % 64 == c
  {
    var y := a * 64 + b;
    Two(a, b);
    Two(y, c);
    DivideAgain(y * 64 + c);
    assert a * 4096 + b * 64 + c == y * 64 + c;
  }

  lemma Four(a: nat, b: nat, c: nat, d: nat)
    requires b < 64 && c < 64 && d < 64
    ensures var x := a * 262144 + b * 4096 + c * 64 + d;
            x / 262144 == a && (x / 4096) % 64 == b && (x / 64) % 64 == c && x % 64 == d
  {
    var y := a * 4096 + b * 64 + c;
    Three(a, b, c);
    Two(y, d);
    DivideAgain(y);
    DivideAgain(y * 64 + d);
    assert a * 262144 + b * 4096 + c * 64 + d == y * 64 + d;
  }

  // ----- printable texts

  /** A tab, or a newline where allowed, or no control character. */
  ghost predicate Shown(c: nat, allowNewline: bool) {
    c == 9 || (allowNewline && c == NEWLINE) || (c >= 0x20 && !(0x7F <= c <= 0x9F))
  }

  ghost predicate AllShown(cs: seq<nat>, allowNewline: bool) {
    forall i :: 0 <= i < |cs| ==> Shown(cs[i], allowNewline)
  }

  /** The bytes are a text of characters that can be shown. */
  ghost predicate ShowsText(value: bytes, allowNewline: bool) {
    exists cs :: AllScalar(cs) && Text(cs) == value && AllShown(cs, allowNewline)
  }

  lemma {:induction false} ShownPrints(cs: seq<nat>, allowNewline: bool)
    requires AllScalar(cs) && AllShown(cs, allowNewline)
    ensures Printable(Text(cs), allowNewline)
    decreases |cs|
  {
    if cs != [] {
      var rest := Text(cs[1..]);
      DecodeEncoded(cs[0], rest);
      ShownPrints(cs[1..], allowNewline);
      assert (Encoded(cs[0]) + rest)[|Encoded(cs[0])|..] == rest;
    }
  }

  lemma {:induction false} PrintsShown(value: bytes, allowNewline: bool) returns (cs: seq<nat>)
    requires Printable(value, allowNewline)
    ensures AllScalar(cs) && Text(cs) == value && AllShown(cs, allowNewline)
    decreases |value|
  {
    cs := [];
    if value != [] {
      var r := DecodeRune(value);
      EncodeDecoded(value);
      var more := PrintsShown(value[r.size..], allowNewline);
      cs := [r.code] + more;
      OneMore(r.code, more, allowNewline);
      Cut(value, r.size);
    }
  }

  lemma OneMore(c: nat, cs: seq<nat>, allowNewline: bool)
    requires Scalar(c) && AllScalar(cs) && Shown(c, allowNewline) && AllShown(cs, allowNewline)
    ensures AllScalar([c] + cs) && AllShown([c] + cs, allowNewline) && Text([c] + cs) == Encoded(c) + Text(cs)
  {
    assert ([c] + cs)[1..] == cs;
  }

  lemma Cut(value: bytes, n: nat)
    requires n <= |value|
    ensures value == value[..n] + value[n..]
  {
  }

  /** Bytes are printable exactly if they are a text of characters that can be shown. */
  lemma PrintableText(value: bytes, allowNewline: bool)
    ensures Printable(value, allowNewline) <==> ShowsText(value, allowNewline)
  {
    if Printable(value, allowNewline) {
      var cs := PrintsShown(value, allowNewline);
    }
    if ShowsText(value, allowNewline) {
      var cs :| AllScalar(cs) && Text(cs) == value && AllShown(cs, allowNewline);
      ShownPrints(cs, allowNewline);
    }
  }

  ghost function Word(a: nat, b: nat, c: nat, d: nat): nat {
    a + 0x100 * b + 0x1_0000 * c + 0x100_0000 * d
  }

  /** The number that eight bytes stand for, the first the least significant. */
  ghost function Eight(b: bytes): nat
    requires |b| == 8
  {
    Word(b[0], b[1], b[2], b[3]) + 0x1_0000_0000 * Word(b[4], b[5], b[6], b[7])
  }

  lemma FourBytes(b: bytes, rest: bytes)
    requires |b| >= 4 && rest == b[4..]
    ensures ReadLittleEndian(b) == Word(b[0], b[1], b[2], b[3]) + 0x1_0000_0000 * ReadLittleEndian(rest)
  {
    var b1, b2, b3 := b[1..], b[1..][1..], b[1..][1..][1..];
    assert b1[0] == b[1] && b2[0] == b[2] && b3[0] == b[3] && b3[1..] == rest;
    assert ReadLittleEndian(b3) == b[3] + 256 * ReadLittleEndian(rest);
    assert ReadLittleEndian(b2) == b[2] + 256 * ReadLittleEndian(b3);
    assert ReadLittleEndian(b1) == b[1] + 256 * ReadLittleEndian(b2);
  }

  lemma EightBytesRead(b: bytes)
    requires |b| == 8
    ensures ReadLittleEndian(b) == Eight(b)
  {
    FourBytes(b, b[4..]);
    FourBytes(b[4..], []);
  }

  lemma SizeBytes(n: nat)
    requires n <= MAX_U64
    ensures Eight(LittleEndian(n, 8)) == n
  {
    EightBytes();
    LittleEndianRead(n, 8);
    EightBytesRead(LittleEndian(n, 8));
  }

  /** A field is written as one line of text exactly if name and value together are a text free of
      control characters; otherwise as its name, the size of its value in eight bytes, least
      significant first, and the value. */
  lemma FieldForm(f: Field)
    requires |f.value| <= MAX_U64
    ensures var text := f.name + [EQUALS] + f.value;
            if ShowsText(text, false) then WriteField(f) == text + [NEWLINE]
            else exists size: bytes ::
                   |size| == 8 && Eight(size) == |f.value| && WriteField(f) == f.name + [NEWLINE] + size + f.value + [NEWLINE]
  {
    PrintableText(f.name + [EQUALS] + f.value, false);
    SizeBytes(|f.value|);
  }
}
