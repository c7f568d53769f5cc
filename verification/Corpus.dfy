/** The corpus file (`way-embed.cpp`): a JSON record a line, strings escaped as in section 7 of RFC 8259,
    written by one command and read back by a scan for each key. The code works on bytes and decodes none:
    here a `char` is a byte, so lengths and `MAX_LINE` count bytes. */
module Corpus {
  import opened Basics

  const QUOTE: char := '"'
  const BACKSLASH: char := '\\'
  const NUL: char := '\0'
  const MAX_LINE: nat := 65536

  // ----- escaping -----

  function EscapedChar(c: char): string
  {
    if c == QUOTE then [BACKSLASH, QUOTE]
    else if c == BACKSLASH then [BACKSLASH, BACKSLASH]
    else if c == '\n' then [BACKSLASH, 'n']
    else [c]
  }

  function Escape(s: string): string { if s == "" then "" else Escape(s[..|s| - 1]) + EscapedChar(s[|s| - 1]) }

  method JsonEscape(s: string) returns (out: string)
    ensures out == Escape(s)
  {
    out := "";
    for i := 0 to |s|
      invariant out == Escape(s[..i])
    {
      var c := s[i];
      assert s[..i + 1][..i] == s[..i];
      if c == QUOTE { out := out + [BACKSLASH, QUOTE]; }
      else if c == BACKSLASH { out := out + [BACKSLASH, BACKSLASH]; }
      else if c == '\n' { out := out + [BACKSLASH, 'n']; }
      else { out := out + [c]; }
    }
    assert s[..|s|] == s;
  }

  // ----- reading a string value -----

  function Key(key: string): string { [QUOTE] + key + [QUOTE, ':', QUOTE] }

  function SpacedKey(key: string): string { [QUOTE] + key + [QUOTE, ':', ' ', QUOTE] }

  function Unescaped(c: char): string
  {
    if c == QUOTE then [QUOTE] else if c == BACKSLASH then [BACKSLASH] else if c == 'n' then ['\n'] else [BACKSLASH, c]
  }

  /** The value that starts here, up to its closing quote or the end of the text. */
  function Unescape(s: string): string
  {
    if s == "" || s[0] == QUOTE then ""
    else if s[0] == BACKSLASH && |s| > 1 then Unescaped(s[1]) + Unescape(s[2..])
    else [s[0]] + Unescape(s[1..])
  }

  /** Where the key stands: with its colon and quote together, or else with a space between them. */
  function KeyHit(json: string, key: string): (r: Option<nat>)
    ensures r.Some? ==> r.value + |key| + 4 <= |json|
  {
    match Find(json, Key(key)) case Some(i) => Some(i) case None => Find(json, SpacedKey(key))
  }

  /** Where the value's text starts: after the first quote behind the key. */
  function ValueStart(json: string, key: string): (r: Option<nat>)
    ensures r.Some? ==> r.value <= |json|
  {
    var hit := KeyHit(json, key);
    if hit.None? then None else BehindQuote(json, hit.value + |key| + 2)
  }

  /** `strchr` for a quote, and past it. */
  function BehindQuote(s: string, from: nat): (r: Option<nat>)
    requires from <= |s|
    ensures r.Some? ==> r.value <= |s|
  {
    var skip := IndexOf(s[from..], QUOTE);
    if from + skip == |s| then None else Some(from + skip + 1)
  }

  function GetString(json: string, key: string): string
  {
    match ValueStart(json, key) case None => "" case Some(i) => Unescape(json[i..])
  }

  /** `result` and what is still to read make up the whole value. */
  ghost predicate Reading(json: string, p: nat, result: string, whole: string)
  {
    p <= |json| && result + Unescape(json[p..]) == whole
  }

  lemma {:induction false} TakeEscape(json: string, p: nat, result: string, whole: string)
    requires Reading(json, p, result, whole) && p + 1 < |json| && json[p] == BACKSLASH
    ensures Reading(json, p + 2, result + Unescaped(json[p + 1]), whole)
  {
    var rest := json[p..];
    assert rest[2..] == json[p + 2..] && rest[1] == json[p + 1];
  }

  lemma {:induction false} TakePlain(json: string, p: nat, result: string, whole: string)
    requires Reading(json, p, result, whole) && p < |json| && json[p] != QUOTE
    requires json[p] != BACKSLASH || p + 1 == |json|
    ensures Reading(json, p + 1, result + [json[p]], whole)
  {
    var rest := json[p..];
    assert rest[1..] == json[p + 1..];
  }

  lemma {:induction false} ReadAll(json: string, p: nat, result: string, whole: string)
    requires Reading(json, p, result, whole) && (p == |json| || json[p] == QUOTE)
    ensures result == whole
  {
  }

  /** One turn of the loop of `json_get_string`. */
  method ReadOne(json: string, p: nat, result: string, ghost whole: string) returns (next: nat, more: string)
    requires Reading(json, p, result, whole) && p < |json| && json[p] != QUOTE
    ensures Reading(json, next, more, whole) && next > p
  {
    if json[p] == BACKSLASH && p + 1 < |json| {
      TakeEscape(json, p, result, whole);
      return p + 2, result + Unescaped(json[p + 1]);
    }
    TakePlain(json, p, result, whole);
    return p + 1, result + [json[p]];
  }

  /** The loop of `json_get_string` from the value's first character; where `json` ends stands its NUL. */
  method ReadValue(json: string, start: nat) returns (result: string)
    requires start <= |json|
    ensures result == Unescape(json[start..])
  {
    result := "";
    var p := start;
    ghost var whole := Unescape(json[start..]);
    while p < |json| && json[p] != QUOTE
      invariant Reading(json, p, result, whole)
      decreases |json| - p
    {
      p, result := ReadOne(json, p, result, whole);
    }
    ReadAll(json, p, result, whole);
  }

  /** `json_get_string` on a C string's characters. */
  method JsonGetString(json: string, key: string) returns (result: string)
    ensures result == GetString(json, key)
  {
    var start := ValueStart(json, key);
    if start.None? { return ""; }
    result := ReadValue(json, start.value);
  }

  // ----- what is written is read back -----

  lemma {:induction false} EscapeFront(c: char, s: string)
    ensures Escape([c] + s) == EscapedChar(c) + Escape(s)
  {
    var cs := [c] + s;
    if s == "" {
      assert cs[..0] == "";
    } else {
      var last := |s| - 1;
      EscapeFront(c, s[..last]);
      assert cs[..|cs| - 1] == [c] + s[..last];
      Regroup(EscapedChar(c), Escape(s[..last]), EscapedChar(s[last]));
    }
  }

  lemma {:induction false} Regroup(a: string, b: string, c: string)
    ensures (a + b) + c == a + (b + c)
  {
  }

  lemma {:induction false} RegroupThree(a: string, b: string, c: string, d: string)
    ensures (a + b) + c + d == a + (b + c + d)
  {
  }

  /** Unescaping up to the closing quote gives back what was escaped. */
  lemma {:induction false} UnescapeEscape(v: string, rest: string)
    ensures Unescape(Escape(v) + [QUOTE] + rest) == v
    decreases |v|
  {
    if v == "" {
      assert Escape(v) + [QUOTE] + rest == [QUOTE] + rest;
    } else {
      var c, w := v[0], v[1..];
      assert v == [c] + w;
      EscapeFront(c, w);
      UnescapeEscape(w, rest);
      RegroupThree(EscapedChar(c), Escape(w), [QUOTE], rest);
      UnescapeChar(c, Escape(w) + [QUOTE] + rest);
    }
  }

  lemma {:induction false} UnescapeChar(c: char, x: string)
    requires x != ""
    ensures Unescape(EscapedChar(c) + x) == [c] + Unescape(x)
  {
    var s := EscapedChar(c) + x;
    if |EscapedChar(c)| == 2 {
      assert s[2..] == x;
    } else {
      assert s[1..] == x;
    }
  }

  /** In escaped text a quote always follows a backslash. */
  lemma {:induction false} QuotesGuarded(v: string)
    ensures forall p | 0 <= p < |Escape(v)| && Escape(v)[p] == QUOTE :: p > 0 && Escape(v)[p - 1] == BACKSLASH
  {
    if v != "" {
      QuotesGuarded(v[..|v| - 1]);
    }
  }

  /** One field of a record, with the comma that follows it. */
  function Field(key: string, v: string): string { Key(key) + Escape(v) + [QUOTE, ','] }

  /** A key a record uses: a word. */
  predicate IsWord(key: string) { key != "" && forall i | 0 <= i < |key| :: IsAsciiLetter(key[i]) }

  /** The field's text, place by place. */
  lemma {:induction false} FieldChars(key: string, v: string, f: string, e: string)
    requires f == Field(key, v) && e == Escape(v)
    ensures |f| == |key| + |e| + 6 && f[0] == QUOTE && f[|f| - 1] == ','
    ensures Spells(f, 1, key)
    ensures f[|key| + 1] == QUOTE && f[|key| + 2] == ':' && f[|key| + 3] == QUOTE && f[|f| - 2] == QUOTE
    ensures Spells(f, |key| + 4, e)
  {
    assert forall n | 0 <= n < |Key(key)| :: f[n] == Key(key)[n];
  }

  /** What is inside a word is a letter, and a quote inside the value is behind a backslash. */
  lemma {:induction false} FieldInside(key: string, v: string, f: string, q: nat)
    requires IsWord(key) && f == Field(key, v)
    ensures 0 < q <= |key| ==> IsAsciiLetter(f[q])
    ensures |key| + 3 < q < |f| - 2 && f[q] == QUOTE ==> f[q - 1] == BACKSLASH
  {
    var e := Escape(v);
    FieldChars(key, v, f, e);
    QuotesGuarded(v);
  }

  /** A quote of a field with a word before it and a colon behind it is the key's closing one. */
  lemma {:induction false} ColonQuotes(key: string, v: string, f: string, q: nat)
    requires IsWord(key) && f == Field(key, v) && q + 1 < |f|
    requires f[q] == QUOTE && f[q + 1] == ':'
    ensures q == |key| + 1 || (q > 0 && !IsAsciiLetter(f[q - 1]))
  {
    FieldChars(key, v, f, Escape(v));
    FieldInside(key, v, f, q);
    FieldInside(key, v, f, 1);
  }

  /** The text `s` has an occurrence of the key at `i`. */
  predicate KeyAt(s: string, i: nat, key: string)
  {
    && i + |key| + 3 < |s| && s[i] == QUOTE && s[i + |key| + 1] == QUOTE && s[i + |key| + 2] == ':'
    && Spells(s, i + 1, key)
  }

  lemma {:induction false} PrefixKeyAt(s: string, i: nat, key: string)
    requires i <= |s| && Key(key) <= s[i..]
    ensures KeyAt(s, i, key)
  {
    var k := Key(key);
    assert forall n | i <= n < i + |k| :: s[n] == s[i..][n - i] == k[n - i];
  }

  /** The occurrence would end within the field, as the field's last comma is no letter. */
  lemma {:induction false} Within(key: string, v: string, other: string, f: string, rest: string, i: nat)
    requires IsWord(key) && IsWord(other) && f == Field(key, v) && i < |f| && KeyAt(f + rest, i, other)
    ensures i + |other| + 2 < |f|
  {
    var s, c := f + rest, |f| - 1;
    FieldChars(key, v, f, Escape(v));
    assert s[c] == ',';
  }

  lemma {:induction false} SameKey(key: string, v: string, other: string, f: string, i: nat)
    requires IsWord(key) && IsWord(other) && i + |other| == |key| && f == Field(key, v) && f[i] == QUOTE
    requires Spells(f, i + 1, other)
    ensures other == key
  {
    FieldChars(key, v, f, Escape(v));
    FieldInside(key, v, f, i);
    assert forall n | 0 <= n < |other| :: other[n] == f[n + 1] == key[n];
  }

  /** No occurrence of another key starts within a field, whatever its value and whatever follows. */
  lemma {:induction false} NoHit(key: string, v: string, other: string, rest: string, i: nat)
    requires IsWord(key) && IsWord(other) && i < |Field(key, v)| && KeyAt(Field(key, v) + rest, i, other)
    ensures other == key
  {
    var f := Field(key, v);
    var s, q := f + rest, i + |other| + 1;
    Within(key, v, other, f, rest, i);
    assert forall n | 0 <= n < |f| :: s[n] == f[n];
    ColonQuotes(key, v, f, q);
    assert s[q - 1] == other[|other| - 1];
    SameKey(key, v, other, f, i);
  }

  // ----- the first occurrence -----

  lemma {:induction false} ColonFirst(body: string)
    ensures IndexOf([':', QUOTE] + body, QUOTE) == 1
  {
    var s := [':', QUOTE] + body;
    assert s[1..][0] == QUOTE;
  }

  lemma {:induction false} DropDrop(s: string, a: nat, b: nat)
    requires a + b <= |s|
    ensures s[a..][b..] == s[a + b..]
  {
  }

  lemma {:induction false} QuoteSecond(s: string, from: nat, body: string)
    requires from <= |s| && s[from..] == [':', QUOTE] + body
    ensures BehindQuote(s, from) == Some(from + 2) && s[from + 2..] == body
  {
    var suffix := [':', QUOTE] + body;
    ColonFirst(body);
    assert suffix[2..] == body;
    DropDrop(s, from, 2);
  }

  lemma {:induction false} StringAt(json: string, key: string, start: nat, body: string)
    requires ValueStart(json, key) == Some(start) && json[start..] == body
    ensures GetString(json, key) == Unescape(body)
  {
  }

  lemma {:induction false} StartFound(json: string, key: string, n: nat, from: nat)
    requires KeyHit(json, key) == Some(n) && from == n + |key| + 2 <= |json|
    ensures ValueStart(json, key) == BehindQuote(json, from)
  {
  }

  lemma {:induction false} TightHit(json: string, key: string, n: nat)
    requires Find(json, Key(key)) == Some(n)
    ensures KeyHit(json, key) == Some(n)
  {
  }

  /** A key found reads the value behind it. */
  lemma {:induction false} ValueAt(json: string, key: string, n: nat, from: nat, body: string)
    requires KeyHit(json, key) == Some(n) && from == n + |key| + 2 <= |json|
    requires json[from..] == [':', QUOTE] + body
    ensures GetString(json, key) == Unescape(body)
  {
    QuoteSecond(json, from, body);
    StartFound(json, key, n, from);
    StringAt(json, key, from + 2, body);
  }

  lemma {:induction false} FieldSuffix(before: string, key: string, v: string, rest: string, json: string)
    requires json == before + (Field(key, v) + rest)
    ensures Key(key) <= json[|before|..]
    ensures json[|before| + |key| + 2..] == [':', QUOTE] + (Escape(v) + [QUOTE] + ([','] + rest))
  {
    var f := Field(key, v);
    assert json[|before|..] == f + rest;
    assert Key(key) <= f + rest;
    assert json[|before| + |key| + 2..] == (f + rest)[|key| + 2..];
    assert (f + rest)[|key| + 2..] == f[|key| + 2..] + rest;
    FieldTail(key, v);
  }

  lemma {:induction false} FieldTail(key: string, v: string)
    ensures Field(key, v)[|key| + 2..] == [':', QUOTE] + (Escape(v) + [QUOTE, ','])
  {
    var head, e := [QUOTE] + key + [QUOTE], Escape(v);
    assert Field(key, v) == head + ([':', QUOTE] + (e + [QUOTE, ',']));
  }

  /** The value of a field is read, when its key starts nowhere before it. */
  lemma {:induction false} ReadsField(before: string, key: string, v: string, rest: string, json: string)
    requires json == before + (Field(key, v) + rest)
    requires forall i | 0 <= i < |before| :: !(Key(key) <= json[i..])
    ensures GetString(json, key) == v
  {
    FieldSuffix(before, key, v, rest, json);
    FindAt(json, Key(key), |before|);
    TightHit(json, key, |before|);
    ValueAt(json, key, |before|, |before| + |key| + 2, Escape(v) + [QUOTE] + ([','] + rest));
    UnescapeEscape(v, [','] + rest);
  }

  lemma {:induction false} KeyAtShift(a: string, s: string, i: nat, key: string)
    requires KeyAt(a + s, |a| + i, key)
    ensures KeyAt(s, i, key)
  {
    var t := a + s;
    assert forall n | 0 <= n < |s| :: s[n] == t[|a| + n];
  }

  /** No other key starts within a field of the text. */
  lemma {:induction false} SkipField(a: string, key: string, v: string, rest: string, json: string, other: string)
    requires json == a + (Field(key, v) + rest) && IsWord(key) && IsWord(other) && key != other
    ensures forall i | |a| <= i < |a| + |Field(key, v)| :: !(Key(other) <= json[i..])
  {
    forall i | |a| <= i < |a| + |Field(key, v)| ensures !(Key(other) <= json[i..]) {
      if Key(other) <= json[i..] {
        PrefixKeyAt(json, i, other);
        KeyAtShift(a, Field(key, v) + rest, i - |a|, other);
        NoHit(key, v, other, rest, i - |a|);
      }
    }
  }

  // ----- a record -----

  const ID := "id"
  const DESCRIPTION := "description"
  const VOCABULARY := "vocabulary"

  lemma {:induction false} Words()
    ensures IsWord(ID) && IsWord(DESCRIPTION) && IsWord(VOCABULARY)
    ensures ID != DESCRIPTION && DESCRIPTION != VOCABULARY && VOCABULARY != ID
  {
    assert |ID| == 2 && |DESCRIPTION| == 11 && |VOCABULARY| == 10;
  }

  datatype Entry = Entry(id: string, description: string, vocabulary: string)

  /** A record whose number fields and what follows them are `tail`. */
  function Record(e: Entry, tail: string): string
  {
    ['{'] + (Field(ID, e.id) + (Field(DESCRIPTION, e.description) + (Field(VOCABULARY, e.vocabulary) + tail)))
  }

  lemma {:induction false} Brace(rest: string, json: string, key: string)
    requires json == ['{'] + rest
    ensures forall i | 0 <= i < 1 :: !(Key(key) <= json[i..])
  {
    assert json[0..][0] == '{' && Key(key)[0] == QUOTE;
  }

  /** Each value is read as it was written, whatever text the values before it hold. */
  lemma {:induction false} RecordRead(e: Entry, tail: string)
    ensures GetString(Record(e, tail), ID) == e.id
    ensures GetString(Record(e, tail), DESCRIPTION) == e.description
    ensures GetString(Record(e, tail), VOCABULARY) == e.vocabulary
  {
    var json := Record(e, tail);
    var f1, f2 := Field(ID, e.id), Field(DESCRIPTION, e.description);
    var r3 := Field(VOCABULARY, e.vocabulary) + tail;
    var r2 := f2 + r3;
    var b1, b2 := ['{'] + f1, ['{'] + f1 + f2;
    assert json == b1 + r2 && json == b2 + r3;
    Words();
    Brace(f1 + r2, json, ID);
    ReadsField(['{'], ID, e.id, r2, json);
    Brace(f1 + r2, json, DESCRIPTION);
    SkipField(['{'], ID, e.id, r2, json, DESCRIPTION);
    ReadsField(b1, DESCRIPTION, e.description, r3, json);
    Brace(f1 + r2, json, VOCABULARY);
    SkipField(['{'], ID, e.id, r2, json, VOCABULARY);
    SkipField(b1, DESCRIPTION, e.description, r3, json, VOCABULARY);
    ReadsField(b2, VOCABULARY, e.vocabulary, tail, json);
  }

  // ----- the file -----

  /** What one `fgets` takes: through the next newline, or as much as the buffer holds. */
  function ChunkLength(text: string): (n: nat)
    requires text != ""
    ensures 0 < n <= |text| && n < MAX_LINE && '\n' !in text[..n - 1]
    ensures text[n - 1] == '\n' || n == |text| || n == MAX_LINE - 1
  {
    var i := IndexOf(text, '\n');
    var n := if i < |text| then i + 1 else |text|;
    if n < MAX_LINE then n else MAX_LINE - 1
  }

  /** A buffer as a C string: up to its first NUL. */
  function CString(s: string): string { s[..IndexOf(s, NUL)] }

  function Stripped(line: string): string
  {
    if line != "" && (line[|line| - 1] == '\n' || line[|line| - 1] == '\r') then Stripped(line[..|line| - 1]) else line
  }

  datatype Loaded = Loaded(entry: Entry, raw: string)

  function EntryOf(line: string): Entry
  {
    Entry(GetString(line, ID), GetString(line, DESCRIPTION), GetString(line, VOCABULARY))
  }

  /** What one line adds: nothing when it is empty or names no id. */
  function LoadLine(line: string): seq<Loaded>
  {
    if line == "" || line[0] == '\n' || EntryOf(line).id == "" then [] else [Loaded(EntryOf(line), Stripped(line))]
  }

  function Load(text: string): seq<Loaded>
    decreases |text|
  {
    if text == "" then [] else
    var n := ChunkLength(text);
    LoadLine(CString(text[..n])) + Load(text[n..])
  }

  /** `load_corpus`, its number fields left out. */
  method LoadCorpus(text: string) returns (corpus: seq<Loaded>)
    ensures corpus == Load(text)
  {
    corpus := [];
    var rest := text;
    while rest != ""
      invariant corpus + Load(rest) == Load(text)
      decreases |rest|
    {
      var n := ChunkLength(rest);
      var line := CString(rest[..n]);
      ghost var tail := Load(rest[n..]);
      Regrouped(corpus, LoadLine(line), tail);
      rest := rest[n..];
      if line == "" || line[0] == '\n' { continue; }
      var id := JsonGetString(line, ID);
      var description := JsonGetString(line, DESCRIPTION);
      var vocabulary := JsonGetString(line, VOCABULARY);
      var raw := line;
      while raw != "" && (raw[|raw| - 1] == '\n' || raw[|raw| - 1] == '\r')
        invariant Stripped(raw) == Stripped(line)
        decreases |raw|
      {
        raw := raw[..|raw| - 1];
      }
      if id != "" {
        corpus := corpus + [Loaded(Entry(id, description, vocabulary), raw)];
      }
    }
  }

  lemma {:induction false} Regrouped(a: seq<Loaded>, b: seq<Loaded>, c: seq<Loaded>)
    ensures (a + b) + c == a + (b + c) && (b == [] ==> a + b == a)
  {
  }

  // ----- writing the file, and loading it again -----

  /** The line written for an entry; `numbers` is what its number fields print. */
  function RecordLine(e: Entry, numbers: string): string { Record(e, numbers + "]}") + "\n" }

  function Written(entries: seq<Entry>, numbers: seq<string>): string
    requires |numbers| == |entries|
  {
    if entries == [] then "" else RecordLine(entries[0], numbers[0]) + Written(entries[1..], numbers[1..])
  }

  /** The writer of `cmd_generate`. */
  method Generate(entries: seq<Entry>, numbers: seq<string>) returns (out: string)
    requires |numbers| == |entries|
    ensures out == Written(entries, numbers)
  {
    out := "";
    for i := 0 to |entries|
      invariant out + Written(entries[i..], numbers[i..]) == Written(entries, numbers)
    {
      var id := JsonEscape(entries[i].id);
      var description := JsonEscape(entries[i].description);
      var vocabulary := JsonEscape(entries[i].vocabulary);
      var line := LineOf(id, description, vocabulary, numbers[i]);
      SameLine(entries[i], numbers[i]);
      assert entries[i..][1..] == entries[i + 1..] && numbers[i..][1..] == numbers[i + 1..];
      Regroup(out, line, Written(entries[i + 1..], numbers[i + 1..]));
      out := out + line;
    }
  }

  /** The format string, on texts already escaped. */
  function LineOf(id: string, description: string, vocabulary: string, numbers: string): string
  {
    "{\"id\":\"" + id + "\",\"description\":\"" + description + "\",\"vocabulary\":\"" + vocabulary
    + "\"," + numbers + "]}\n"
  }

  lemma {:induction false} SameLine(e: Entry, numbers: string)
    ensures LineOf(Escape(e.id), Escape(e.description), Escape(e.vocabulary), numbers) == RecordLine(e, numbers)
  {
    var a, b, c := Escape(e.id), Escape(e.description), Escape(e.vocabulary);
    Openers();
    Formatted(Key(ID), a, Key(DESCRIPTION), b, Key(VOCABULARY), c, numbers);
  }

  lemma {:induction false} Openers()
    ensures "{\"id\":\"" == ['{'] + Key(ID)
    ensures "\",\"description\":\"" == [QUOTE, ','] + Key(DESCRIPTION)
    ensures "\",\"vocabulary\":\"" == [QUOTE, ','] + Key(VOCABULARY)
  {
  }

  lemma {:induction false} Formatted(k1: string, a: string, k2: string, b: string, k3: string, c: string, n: string)
    ensures (['{'] + k1) + a + ([QUOTE, ','] + k2) + b + ([QUOTE, ','] + k3) + c + "\"," + n + "]}\n"
         == ['{'] + ((k1 + a + [QUOTE, ',']) + ((k2 + b + [QUOTE, ',']) + ((k3 + c + [QUOTE, ',']) + (n + "]}"))))
            + "\n"
  {
  }

  predicate Lacks(s: string, c: char) { c !in s }

  lemma {:induction false} EscapeLacks(v: string, c: char)
    requires c == '\n' || (c == NUL && Lacks(v, NUL))
    ensures Lacks(Escape(v), c)
  {
    if v != "" {
      var last := |v| - 1;
      assert v == v[..last] + [v[last]] && v[last] in v;
      EscapeLacks(v[..last], c);
    }
  }

  lemma {:induction false} FieldLacks(key: string, v: string, c: char)
    requires IsWord(key) && (c == '\n' || (c == NUL && Lacks(v, NUL)))
    ensures Lacks(Field(key, v), c)
  {
    EscapeLacks(v, c);
    assert c !in key;
  }

  predicate Printable(e: Entry) { Lacks(e.id, NUL) && Lacks(e.description, NUL) && Lacks(e.vocabulary, NUL) }

  lemma {:induction false} RecordLacks(e: Entry, tail: string, c: char)
    requires (c == '\n' || (c == NUL && Printable(e))) && Lacks(tail, c)
    ensures Lacks(Record(e, tail), c)
  {
    Words();
    FieldLacks(ID, e.id, c);
    FieldLacks(DESCRIPTION, e.description, c);
    FieldLacks(VOCABULARY, e.vocabulary, c);
  }

  /** A line without newline or NUL that fits the buffer is read whole, as it is. */
  lemma {:induction false} WholeLine(body: string, rest: string)
    requires Lacks(body, '\n') && Lacks(body, NUL) && |body| + 1 < MAX_LINE
    ensures var text := body + "\n" + rest; var n := ChunkLength(text);
            n == |body| + 1 && CString(text[..n]) == body + "\n" && text[n..] == rest
  {
    var text := body + "\n" + rest;
    FirstAt(body, '\n', rest);
    assert text == body + ['\n'] + rest;
    var line := body + "\n";
    assert text[..|body| + 1] == line;
    assert Lacks(line, NUL);
    FoundNowhere(line, NUL);
  }

  lemma {:induction false} FoundNowhere(s: string, c: char)
    requires Lacks(s, c)
    ensures IndexOf(s, c) == |s|
  {
    if s != "" {
      assert s[0] in s;
      FoundNowhere(s[1..], c);
    }
  }

  lemma {:induction false} FirstAt(a: string, c: char, b: string)
    requires c !in a
    ensures IndexOf(a + [c] + b, c) == |a|
  {
    SplitOnceAt(a, c, b);
  }

  /** Only records with an id are kept. */
  function Kept(entries: seq<Entry>, numbers: seq<string>): seq<Loaded>
    requires |numbers| == |entries|
  {
    if entries == [] then [] else
    (if entries[0].id == "" then [] else [Loaded(entries[0], Record(entries[0], numbers[0] + "]}"))])
    + Kept(entries[1..], numbers[1..])
  }

  /** The entry can be written as one line. */
  predicate Clean(e: Entry, numbers: string) { Printable(e) && Lacks(numbers, NUL) && Lacks(numbers, '\n') }

  /** The line is read whole: the buffer may cut off its newline, no more. */
  predicate Fits(e: Entry, numbers: string) { |RecordLine(e, numbers)| <= MAX_LINE }

  lemma {:induction false} RecordEnds(e: Entry, numbers: string)
    ensures var r := Record(e, numbers + "]}"); r != "" && r[0] == '{' && r[|r| - 1] == '}'
  {
    var r := Record(e, numbers + "]}");
    assert numbers + "]}" == numbers + "]" + "}";
  }

  lemma {:induction false} StrippedLine(r: string)
    requires r != "" && r[|r| - 1] == '}'
    ensures Stripped(r + "\n") == r
  {
    assert (r + "\n")[..|r|] == r;
  }

  lemma {:induction false} LineRead(e: Entry, numbers: string)
    ensures EntryOf(RecordLine(e, numbers)) == e
  {
    RecordRead(e, numbers + "]}" + "\n");
    SameRecord(e, numbers + "]}", "\n");
  }

  lemma {:induction false} LineLoads(e: Entry, numbers: string)
    ensures LoadLine(RecordLine(e, numbers))
         == if e.id == "" then [] else [Loaded(e, Record(e, numbers + "]}"))]
  {
    var line, r := RecordLine(e, numbers), Record(e, numbers + "]}");
    RecordEnds(e, numbers);
    LineRead(e, numbers);
    StrippedLine(r);
    assert line[0] == r[0];
  }

  lemma {:induction false} BodyRead(e: Entry, numbers: string)
    ensures EntryOf(Record(e, numbers + "]}")) == e
  {
    RecordRead(e, numbers + "]}");
  }

  lemma {:induction false} StrippedBody(r: string)
    requires r != "" && r[|r| - 1] == '}'
    ensures Stripped(r) == r
  {
  }

  /** The same without the newline. */
  lemma {:induction false} BodyLoads(e: Entry, numbers: string)
    ensures LoadLine(Record(e, numbers + "]}"))
         == if e.id == "" then [] else [Loaded(e, Record(e, numbers + "]}"))]
  {
    RecordEnds(e, numbers);
    BodyRead(e, numbers);
    StrippedBody(Record(e, numbers + "]}"));
  }

  lemma {:induction false} CutAtBuffer(body: string, rest: string, text: string)
    requires Lacks(body, '\n') && Lacks(body, NUL) && |body| + 1 == MAX_LINE && text == body + "\n" + rest
    ensures ChunkLength(text) == |body| && CString(text[..|body|]) == body && text[|body|..] == "\n" + rest
  {
    FirstAt(body, '\n', rest);
    assert text == body + ['\n'] + rest;
    assert text[..|body|] == body;
    FoundNowhere(body, NUL);
  }

  /** A line that just fills the buffer loses its newline to the next chunk, which adds nothing. */
  lemma {:induction false} FullBuffer(body: string, rest: string, text: string)
    requires Lacks(body, '\n') && Lacks(body, NUL) && |body| + 1 == MAX_LINE && text == body + "\n" + rest
    ensures Load(text) == LoadLine(body) + Load(rest)
  {
    CutAtBuffer(body, rest, text);
    NewlineAdds(rest);
  }

  lemma {:induction false} NewlineAdds(rest: string)
    ensures Load("\n" + rest) == Load(rest)
  {
    var text := "\n" + rest;
    assert text[0] == '\n' && ChunkLength(text) == 1;
    assert text[..1] == "\n" && text[1..] == rest;
    assert LoadLine(CString("\n")) == [];
  }

  /** A record's line, as long as the buffer may hold, adds the entry it was written for. */
  lemma {:induction false} RecordLoads(e: Entry, numbers: string, rest: string)
    requires Clean(e, numbers) && Fits(e, numbers)
    ensures Load(RecordLine(e, numbers) + rest)
         == (if e.id == "" then [] else [Loaded(e, Record(e, numbers + "]}"))]) + Load(rest)
  {
    var body := Record(e, numbers + "]}");
    RecordLacks(e, numbers + "]}", '\n');
    RecordLacks(e, numbers + "]}", NUL);
    if |body| + 1 < MAX_LINE {
      WholeLine(body, rest);
      LineLoads(e, numbers);
    } else {
      FullBuffer(body, rest, RecordLine(e, numbers) + rest);
      BodyLoads(e, numbers);
    }
  }

  lemma {:induction false} SameRecord(e: Entry, tail: string, more: string)
    ensures Record(e, tail + more) == Record(e, tail) + more
  {
    var a, b, c := Field(ID, e.id), Field(DESCRIPTION, e.description), Field(VOCABULARY, e.vocabulary);
    Pushed(a, b, c, tail, more);
  }

  lemma {:induction false} Pushed(a: string, b: string, c: string, tail: string, more: string)
    ensures ['{'] + (a + (b + (c + (tail + more)))) == (['{'] + (a + (b + (c + tail)))) + more
  {
  }

  /** Loading a written file gives back every entry with an id, in order, its strings unchanged. */
  lemma {:induction false} LoadsWritten(entries: seq<Entry>, numbers: seq<string>)
    requires |numbers| == |entries|
    requires forall i | 0 <= i < |entries| :: Clean(entries[i], numbers[i]) && Fits(entries[i], numbers[i])
    ensures Load(Written(entries, numbers)) == Kept(entries, numbers)
    decreases |entries|
  {
    if entries != [] {
      RecordLoads(entries[0], numbers[0], Written(entries[1..], numbers[1..]));
      LoadsWritten(entries[1..], numbers[1..]);
    }
  }

  lemma {:induction false} StrippedShorter(line: string)
    ensures |Stripped(line)| <= |line|
  {
    if line != "" && (line[|line| - 1] == '\n' || line[|line| - 1] == '\r') { StrippedShorter(line[..|line| - 1]); }
  }

  /** Nothing as long as the buffer is ever loaded. */
  lemma {:induction false} LoadsShort(text: string)
    ensures forall x | x in Load(text) :: |x.raw| < MAX_LINE
    decreases |text|
  {
    if text != "" {
      var n := ChunkLength(text);
      LoadsShort(text[n..]);
      StrippedShorter(CString(text[..n]));
    }
  }

  lemma {:induction false} KeptHolds(entries: seq<Entry>, numbers: seq<string>, i: nat)
    requires |numbers| == |entries| && i < |entries| && entries[i].id != ""
    ensures Loaded(entries[i], Record(entries[i], numbers[i] + "]}")) in Kept(entries, numbers)
  {
    if i > 0 { KeptHolds(entries[1..], numbers[1..], i - 1); }
  }

  /** Entries with ids all come back exactly when no line is longer than the buffer. */
  lemma {:induction false} LoadsWrittenIff(entries: seq<Entry>, numbers: seq<string>)
    requires |numbers| == |entries|
    requires forall i | 0 <= i < |entries| :: Clean(entries[i], numbers[i]) && entries[i].id != ""
    ensures Load(Written(entries, numbers)) == Kept(entries, numbers)
       <==> forall i | 0 <= i < |entries| :: Fits(entries[i], numbers[i])
  {
    if forall i | 0 <= i < |entries| :: Fits(entries[i], numbers[i]) {
      LoadsWritten(entries, numbers);
    } else {
      var i :| 0 <= i < |entries| && !Fits(entries[i], numbers[i]);
      KeptHolds(entries, numbers, i);
      LoadsShort(Written(entries, numbers));
    }
  }

  /** An escape that is none of the three written stays as it is, and so does a backslash at the end. */
  lemma {:induction false} OtherEscapes(c: char, rest: string)
    requires c != QUOTE && c != BACKSLASH && c != 'n'
    ensures Unescape([BACKSLASH, c] + rest) == [BACKSLASH, c] + Unescape(rest)
    ensures Unescape([BACKSLASH]) == [BACKSLASH]
  {
    var s := [BACKSLASH, c] + rest;
    assert s[2..] == rest;
    assert [BACKSLASH][1..] == "";
  }

  /** A key that stands in neither form has no value. */
  lemma {:induction false} NoKeyRead(json: string, key: string)
    requires Find(json, Key(key)).None? && Find(json, SpacedKey(key)).None?
    ensures GetString(json, key) == ""
  {
  }

  /** Where the key does not stand with its colon and quote together, it is read with a space between them. */
  lemma {:induction false} SpacedRead(json: string, key: string, n: nat, from: nat)
    requires Find(json, Key(key)).None? && Find(json, SpacedKey(key)) == Some(n) && from == n + |key| + 2
    ensures from + 3 <= |json| && GetString(json, key) == Unescape(json[from + 3..])
  {
    SpacedQuote(json, n, key, SpacedKey(key), from);
    SpacedHit(json, key, n);
    StartFound(json, key, n, from);
    StringAt(json, key, from + 3, json[from + 3..]);
  }

  lemma {:induction false} SpacedHit(json: string, key: string, n: nat)
    requires Find(json, Key(key)).None? && Find(json, SpacedKey(key)) == Some(n)
    ensures KeyHit(json, key) == Some(n)
  {
  }

  lemma {:induction false} SpacedQuote(json: string, n: nat, key: string, k: string, from: nat)
    requires n <= |json| && k == SpacedKey(key) && k <= json[n..] && from == n + |key| + 2
    ensures from + 3 <= |json| && BehindQuote(json, from) == Some(from + 3)
  {
    var rest := json[from..];
    assert json[n..][|key| + 2..] == rest;
    assert rest[0] == k[|key| + 2] == ':' && rest[1] == k[|key| + 3] == ' ' && rest[2] == k[|key| + 4] == QUOTE;
    assert rest[1..][0] == ' ' && rest[1..][1..][0] == QUOTE;
    assert IndexOf(rest[1..][1..], QUOTE) == 0;
    assert IndexOf(rest[1..], QUOTE) == 1;
  }
}
