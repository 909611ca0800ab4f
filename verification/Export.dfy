/** The Journal Export Format: writing fields (go/journal/reader_output.go:158-223) and reading
    them back (go/adapter/main.go:465-509). */
module Export {
  import opened JournalGraph

  const NEWLINE: uint8 := 10

  // ----- what is printable

  /** A decoded character and the bytes it takes; an invalid sequence takes one. */
  datatype Rune = Rune(code: nat, size: nat) | Invalid

  predicate Continuation(b: uint8) {
    0x80 <= b <= 0xBF
  }

  function Low(b: uint8): nat
    requires Continuation(b)
  {
    b - 0x80
  }

  /** The first character of a UTF-8 text. */
  function DecodeRune(s: bytes): (r: Rune)
    requires s != []
    ensures r.Rune? ==> 1 <= r.size <= |s| && (r.size == 1 ==> r.code == s[0] < 0x80)
    ensures r.Rune? && r.size > 1 ==> r.code >= 0x80 && forall i :: 0 <= i < r.size ==> s[i] >= 0x80
  {
    var b: int := s[0];
    if b < 0x80 then Rune(b, 1)
    else if 0xC2 <= b <= 0xDF then
      if |s| >= 2 && Continuation(s[1]) then Rune((b - 0xC0) * 64 + Low(s[1]), 2) else Invalid
    else if 0xE0 <= b <= 0xEF then
      if |s| >= 3 && Continuation(s[1]) && Continuation(s[2]) && (b == 0xE0 ==> s[1] >= 0xA0) && (b == 0xED ==> s[1] <= 0x9F)
      then Rune((b - 0xE0) * 4096 + Low(s[1]) * 64 + Low(s[2]), 3) else Invalid
    else if 0xF0 <= b <= 0xF4 then
      if |s| >= 4 && Continuation(s[1]) && Continuation(s[2]) && Continuation(s[3]) && (b == 0xF0 ==> s[1] >= 0x90) && (b == 0xF4 ==> s[1] <= 0x8F)
      then Rune((b - 0xF0) * 262144 + Low(s[1]) * 4096 + Low(s[2]) * 64 + Low(s[3]), 4) else Invalid
    else Invalid
  }

  /** No control characters but tabs, and newlines where allowed. */
  predicate Printable(value: bytes, allowNewline: bool)
    decreases |value|
  {
    value == [] ||
    (var r := DecodeRune(value);
     && r.Rune?
     && (r.code < 0x20 ==> r.code == 9 || (allowNewline && r.code == NEWLINE))
     && !(0x7F <= r.code <= 0x9F)
     && Printable(value[r.size..], allowNewline))
  }

  /** A text that is printable on one line has no newline byte. */
  lemma {:induction false} PrintableLine(value: bytes)
    requires Printable(value, false)
    ensures NEWLINE !in value
    decreases |value|
  {
    if value != [] {
      var r := DecodeRune(value);
      PrintableLine(value[r.size..]);
      assert value == value[..r.size] + value[r.size..];
    }
  }

  // ----- writing

  /** Eight bytes, least significant first. */
  function LittleEndian(x: nat, n: nat): (b: bytes)
    ensures |b| == n
  {
    if n == 0 then [] else [x % 256] + LittleEndian(x / 256, n - 1)
  }

  function ReadLittleEndian(b: bytes): nat {
    if b == [] then 0 else b[0] + 256 * ReadLittleEndian(b[1..])
  }

  function Power256(n: nat): nat {
    if n == 0 then 1 else 256 * Power256(n - 1)
  }

  lemma {:induction false} LittleEndianRead(x: nat, n: nat)
    requires x < Power256(n)
    ensures ReadLittleEndian(LittleEndian(x, n)) == x
    decreases n
  {
    if n > 0 {
      LittleEndianRead(x / 256, n - 1);
    }
  }

  datatype Field = Field(name: bytes, value: bytes)

  function WriteField(f: Field): bytes {
    var text := f.name + [EQUALS] + f.value;
    if Printable(text, false) then text + [NEWLINE]
    else f.name + [NEWLINE] + LittleEndian(|f.value|, 8) + f.value + [NEWLINE]
  }

  function WriteFields(fields: seq<Field>): bytes {
    if fields == [] then [] else WriteField(fields[0]) + WriteFields(fields[1..])
  }

  /** An entry: its fields and an empty line. */
  function WriteEntry(fields: seq<Field>): bytes {
    WriteFields(fields) + [NEWLINE]
  }

  function WriteEntries(entries: seq<seq<Field>>): bytes {
    if entries == [] then [] else WriteEntry(entries[0]) + WriteEntries(entries[1..])
  }

  // ----- reading

  type Entry = map<bytes, bytes>

  datatype Parsed = Malformed | Parsed(entries: seq<Entry>)

  function IndexOf(s: bytes, b: uint8): (i: nat)
    ensures i <= |s| && b !in s[..i] && (i < |s| ==> s[i] == b)
  {
    if s == [] || s[0] == b then 0 else
      var i := IndexOf(s[1..], b) + 1;
      assert s[..i] == [s[0]] + s[1..][..i-1];
      i
  }

  lemma IndexOfFirst(s: bytes, b: uint8, i: nat)
    requires i < |s| && s[i] == b && b !in s[..i]
    ensures IndexOf(s, b) == i
  {
  }

  datatype Body = NoBody | Body(value: bytes, rest: bytes)

  /** A binary value: its size, its bytes and a newline. */
  function ReadBody(data: bytes): (b: Body)
    ensures b.Body? ==> |b.rest| < |data|
  {
    if |data| < 8 then NoBody
    else
      var size, body := ReadLittleEndian(data[..8]), data[8..];
      if size >= |body| || body[size] != NEWLINE then NoBody else Body(body[..size], body[size + 1..])
  }

  datatype Progress = Broken | Progress(data: bytes, entry: Entry, entries: seq<Entry>)

  /** Reads one line: the end of an entry, a text field or a binary field. */
  function ReadLine(data: bytes, entry: Entry, entries: seq<Entry>): (p: Progress)
    requires data != []
    ensures p.Progress? ==> |p.data| < |data|
  {
    var end := IndexOf(data, NEWLINE);
    if end == |data| then Broken
    else
      var line, rest := data[..end], data[end + 1..];
      if line == [] then
        if |entry| > 0 then Progress(rest, map[], entries + [entry]) else Progress(rest, entry, entries)
      else if EQUALS in line then
        var eq := IndexOf(line, EQUALS);
        Progress(rest, entry[line[..eq] := line[eq + 1..]], entries)
      else
        var body := ReadBody(rest);
        if body.NoBody? then Broken else Progress(body.rest, entry[line := body.value], entries)
  }

  /** What is read from `data` on, after the complete `entries` and the fields of `entry`. */
  ghost function ParseFrom(data: bytes, entry: Entry, entries: seq<Entry>): Parsed
    decreases |data|
  {
    if data == [] then Parsed(if |entry| > 0 then entries + [entry] else entries)
    else
      var p := ReadLine(data, entry, entries);
      if p.Broken? then Malformed else ParseFrom(p.data, p.entry, p.entries)
  }

  // ----- round trip

  /** A field that the format can carry. */
  ghost predicate Writable(f: Field) {
    f.name != [] && EQUALS !in f.name && NEWLINE !in f.name && |f.value| <= MAX_U64
  }

  lemma TextLine(name: bytes, value: bytes, rest: bytes, entry: Entry, entries: seq<Entry>)
    requires name != [] && EQUALS !in name && NEWLINE !in name + [EQUALS] + value
    ensures ParseFrom(name + [EQUALS] + value + [NEWLINE] + rest, entry, entries) == ParseFrom(rest, entry[name := value], entries)
  {
    var line := name + [EQUALS] + value;
    var data := line + [NEWLINE] + rest;
    assert data[..|line|] == line && data[|line| + 1..] == rest;
    IndexOfFirst(data, NEWLINE, |line|);
    assert line[|name|] == EQUALS && line[..|name|] == name && line[|name| + 1..] == value;
    IndexOfFirst(line, EQUALS, |name|);
  }

  /** A binary field: a name, the size of the value, and the value with a newline after it. */
  lemma ReadBinary(data: bytes, name: bytes, value: bytes, rest: bytes, entry: Entry, entries: seq<Entry>)
    requires name != [] && EQUALS !in name && |name| < |data| && IndexOf(data, NEWLINE) == |name| && data[..|name|] == name
    requires ReadBody(data[|name| + 1..]) == Body(value, rest)
    ensures ReadLine(data, entry, entries) == Progress(rest, entry[name := value], entries)
  {
  }

  lemma ReadSized(size: bytes, value: bytes, rest: bytes)
    requires |size| == 8 && ReadLittleEndian(size) == |value|
    ensures ReadBody(size + (value + [NEWLINE] + rest)) == Body(value, rest)
  {
    var tail := value + [NEWLINE] + rest;
    assert (size + tail)[..8] == size && (size + tail)[8..] == tail;
    BinaryRest(value, rest);
  }

  lemma ParseLine(data: bytes, entry: Entry, entries: seq<Entry>)
    requires data != [] && ReadLine(data, entry, entries).Progress?
    ensures var p := ReadLine(data, entry, entries);
            ParseFrom(data, entry, entries) == ParseFrom(p.data, p.entry, p.entries)
  {
  }

  lemma BinaryLine(name: bytes, value: bytes, rest: bytes, entry: Entry, entries: seq<Entry>)
    requires name != [] && EQUALS !in name && NEWLINE !in name && |value| <= MAX_U64
    ensures ParseFrom(name + [NEWLINE] + LittleEndian(|value|, 8) + value + [NEWLINE] + rest, entry, entries)
         == ParseFrom(rest, entry[name := value], entries)
  {
    var size := LittleEndian(|value|, 8);
    var data := name + [NEWLINE] + size + value + [NEWLINE] + rest;
    EightBytes();
    LittleEndianRead(|value|, 8);
    ReadSized(size, value, rest);
    BinaryParts(name, size, value, rest);
    IndexOfFirst(data, NEWLINE, |name|);
    ReadBinary(data, name, value, rest, entry, entries);
    ParseLine(data, entry, entries);
  }

  lemma BinaryParts(name: bytes, size: bytes, value: bytes, rest: bytes)
    ensures var data, tail := name + [NEWLINE] + size + value + [NEWLINE] + rest, value + [NEWLINE] + rest;
            |data| > |name| && data[..|name|] == name && data[|name|] == NEWLINE && data[|name| + 1..] == size + tail
  {
    assert name + [NEWLINE] + size + value + [NEWLINE] + rest == name + [NEWLINE] + (size + (value + [NEWLINE] + rest));
  }

  lemma BinaryRest(value: bytes, rest: bytes)
    ensures var tail := value + [NEWLINE] + rest;
            tail[|value|] == NEWLINE && tail[..|value|] == value && tail[|value| + 1..] == rest
  {
  }

  lemma EightBytes()
    ensures Power256(8) == MAX_U64 + 1
  {
    assert Power256(4) == 0x1_0000_0000;
    assert Power256(6) == 0x1_0000_0000_0000;
  }

  lemma ReadField(f: Field, rest: bytes, entry: Entry, entries: seq<Entry>)
    requires Writable(f)
    ensures ParseFrom(WriteField(f) + rest, entry, entries) == ParseFrom(rest, entry[f.name := f.value], entries)
  {
    var text := f.name + [EQUALS] + f.value;
    if Printable(text, false) {
      PrintableLine(text);
      TextLine(f.name, f.value, rest, entry, entries);
    } else {
      BinaryLine(f.name, f.value, rest, entry, entries);
    }
  }

  /** The last value of each name. */
  ghost function Assigned(entry: Entry, fields: seq<Field>): Entry
    decreases |fields|
  {
    if fields == [] then entry else Assigned(entry[fields[0].name := fields[0].value], fields[1..])
  }

  lemma {:induction false} ReadFields(fields: seq<Field>, rest: bytes, entry: Entry, entries: seq<Entry>)
    requires forall f <- fields :: Writable(f)
    ensures ParseFrom(WriteFields(fields) + rest, entry, entries) == ParseFrom(rest, Assigned(entry, fields), entries)
    decreases |fields|
  {
    if fields == [] {
      assert WriteFields(fields) + rest == rest;
    } else {
      var more := WriteFields(fields[1..]) + rest;
      assert WriteFields(fields) + rest == WriteField(fields[0]) + more;
      assert fields[0] in fields;
      ReadField(fields[0], more, entry, entries);
      ReadFields(fields[1..], rest, entry[fields[0].name := fields[0].value], entries);
    }
  }

  lemma {:induction false} AssignedGrows(entry: Entry, fields: seq<Field>)
    ensures entry.Keys <= Assigned(entry, fields).Keys
    ensures forall i :: 0 <= i < |fields| ==> fields[i].name in Assigned(entry, fields)
    decreases |fields|
  {
    if fields != [] {
      AssignedGrows(entry[fields[0].name := fields[0].value], fields[1..]);
      assert forall i :: 1 <= i < |fields| ==> fields[i] == fields[1..][i-1];
    }
  }

  lemma ReadEntry(fields: seq<Field>, rest: bytes, entries: seq<Entry>)
    requires WritableEntry(fields)
    ensures ParseFrom(WriteEntry(fields) + rest, map[], entries) == ParseFrom(rest, map[], entries + [Assigned(map[], fields)])
  {
    var entry := Assigned(map[], fields);
    ClosingLine(WriteFields(fields), rest);
    ReadFields(fields, [NEWLINE] + rest, map[], entries);
    AssignedGrows(map[], fields);
    assert fields[0].name in entry;
    EntryEnds(rest, entry, entries);
  }

  lemma ClosingLine(written: bytes, rest: bytes)
    ensures (written + [NEWLINE]) + rest == written + ([NEWLINE] + rest)
  {
  }

  /** An empty line ends an entry. */
  lemma EntryEnds(rest: bytes, entry: Entry, entries: seq<Entry>)
    requires |entry| > 0
    ensures ParseFrom([NEWLINE] + rest, entry, entries) == ParseFrom(rest, map[], entries + [entry])
  {
    var data := [NEWLINE] + rest;
    IndexOfFirst(data, NEWLINE, 0);
    assert data[..0] == [] && data[1..] == rest;
  }

  ghost function AllAssigned(entries: seq<seq<Field>>): seq<Entry> {
    if entries == [] then [] else [Assigned(map[], entries[0])] + AllAssigned(entries[1..])
  }

  ghost predicate WritableEntry(fields: seq<Field>) {
    fields != [] && forall f <- fields :: Writable(f)
  }

  ghost predicate WritableEntries(entries: seq<seq<Field>>) {
    forall i :: 0 <= i < |entries| ==> WritableEntry(entries[i])
  }

  lemma {:induction false} ReadEntries(entries: seq<seq<Field>>, done: seq<Entry>)
    requires WritableEntries(entries)
    ensures ParseFrom(WriteEntries(entries), map[], done) == Parsed(done + AllAssigned(entries))
    decreases |entries|
  {
    if entries != [] {
      var first := Assigned(map[], entries[0]);
      ReadEntry(entries[0], WriteEntries(entries[1..]), done);
      ReadEntries(entries[1..], done + [first]);
      JoinEntries(done, first, AllAssigned(entries[1..]));
    }
  }

  lemma JoinEntries(done: seq<Entry>, first: Entry, rest: seq<Entry>)
    ensures done + [first] + rest == done + ([first] + rest)
  {
  }

  /** Reads an export; what was written from entries reads back as these entries. */
  method ParseExport(input: bytes) returns (p: Parsed)
    ensures p == ParseFrom(input, map[], [])
  {
    var data, entry: Entry, entries: seq<Entry> := input, map[], [];
    while data != []
      invariant ParseFrom(data, entry, entries) == ParseFrom(input, map[], [])
      decreases |data|
    {
      var line := ReadLine(data, entry, entries);
      if line.Broken? { return Malformed; }
      data, entry, entries := line.data, line.entry, line.entries;
    }
    return Parsed(if |entry| > 0 then entries + [entry] else entries);
  }

  /** Exports entries and parses the result: every entry comes back, with the last value of each name. */
  method RoundTrip(entries: seq<seq<Field>>) returns (p: Parsed)
    requires WritableEntries(entries)
    ensures p == Parsed(AllAssigned(entries))
  {
    ReadEntries(entries, []);
    p := ParseExport(WriteEntries(entries));
  }
}
