/** The signal line a session leaves for its peers, and its parser (`signal.rs`):
    `from|project|cwd|`, tagged fields in a fixed order, the thread field, the message. */
module Signal {
  import opened Basics

  datatype Key = FromKind | FromId | OnBehalfOf | To

  /** The tagged fields, absent or written. */
  datatype Envelope = Envelope(fromKind: Option<string>, fromId: Option<string>,
                               onBehalfOf: Option<string>, to: Option<string>)

  datatype Signal = Signal(from: string, project: string, cwd: string, env: Envelope,
                           reply: Option<string>, message: string)

  const BARE := Envelope(None, None, None, None)

  function KeyText(k: Key): string
  {
    match k
    case FromKind => "from_kind"
    case FromId => "from_id"
    case OnBehalfOf => "on_behalf_of"
    case To => "to"
  }

  function KeyOf(text: string): Option<Key>
  {
    if text == "from_kind" then Some(FromKind)
    else if text == "from_id" then Some(FromId)
    else if text == "on_behalf_of" then Some(OnBehalfOf)
    else if text == "to" then Some(To)
    else None
  }

  function Get(env: Envelope, k: Key): Option<string>
  {
    match k
    case FromKind => env.fromKind
    case FromId => env.fromId
    case OnBehalfOf => env.onBehalfOf
    case To => env.to
  }

  function Put(env: Envelope, k: Key, v: string): Envelope
  {
    match k
    case FromKind => env.(fromKind := Some(v))
    case FromId => env.(fromId := Some(v))
    case OnBehalfOf => env.(onBehalfOf := Some(v))
    case To => env.(to := Some(v))
  }

  // ----- the value classes -----

  predicate IsTagValue(v: string) { v != "" && forall i | 0 <= i < |v| :: IsAsciiAlnum(v[i]) || v[i] in "_@.,:/#*-" }

  predicate IsSignalId(id: string) { id != "" && forall i | 0 <= i < |id| :: IsAsciiAlnum(id[i]) || id[i] in "-_" }

  /** A header character, with one that could end the field or break the line as `_`. */
  function Mended(c: char, noSpace: bool): char
  {
    if c == '|' || IsControl(c) || (noSpace && IsWhitespace(c)) then '_' else c
  }

  function HeaderField(s: string, noSpace: bool): string { seq(|s|, i requires 0 <= i < |s| => Mended(s[i], noSpace)) }

  /** What a reader does to a sender with whitespace an older writer let through. */
  function OneWord(s: string): string
  {
    seq(|s|, i requires 0 <= i < |s| => if IsWhitespace(s[i]) then '_' else s[i])
  }

  predicate Plain(s: string) { forall i | 0 <= i < |s| :: !IsControl(s[i]) }

  // ----- writing -----

  function Tag(k: Key, v: Option<string>): string
  {
    if v.Some? && IsTagValue(v.value) then KeyText(k) + ":" + v.value + "|" else ""
  }

  const KEYS: seq<Key> := [FromKind, FromId, OnBehalfOf, To]

  /** `rest` behind the tags of `keys`, in order. */
  function Tagged(env: Envelope, keys: seq<Key>, rest: string): string
  {
    if keys == [] then rest else Tag(keys[0], Get(env, keys[0])) + Tagged(env, keys[1..], rest)
  }

  const TAGS: seq<string> := ["from_kind", "from_id", "on_behalf_of", "to", "re"]

  /** The message begins like a tag, so a writer must end the tags before it. */
  predicate StartsWithTag(message: string) { exists t | t in TAGS :: t + ":" <= message }

  function Thread(reply: Option<string>, message: string): string
  {
    if reply.Some? then "re:" + reply.value + "|" else if StartsWithTag(message) then "re:|" else ""
  }

  /** Three header fields and what follows them. */
  function Headed(a: string, b: string, c: string, rest: string): string
  {
    a + ['|'] + (b + ['|'] + (c + ['|'] + rest))
  }

  /** The line `format_tagged` writes, without its newline. */
  function Line(from: string, project: string, cwd: string, env: Envelope,
                reply: Option<string>, message: string): string
  {
    Headed(HeaderField(from, true), HeaderField(project, false), HeaderField(cwd, false),
           Tagged(env, KEYS, Thread(reply, message) + message))
  }

  function Format(from: string, project: string, cwd: string, env: Envelope,
                  reply: Option<string>, message: string): string
  {
    Line(from, project, cwd, env, reply, message) + "\n"
  }

  lemma {:induction false} HeaderFirst(a: string, b: string, c: string, rest: string)
    ensures (a + ['|'] + b + ['|'] + c + ['|']) + rest == Headed(a, b, c, rest)
  {
  }

  lemma {:induction false} NextTag(line: string, tag: string, rest: string, whole: string)
    requires line + (tag + rest) == whole
    ensures (line + tag) + rest == whole
  {
  }

  method FormatTagged(from: string, project: string, cwd: string, env: Envelope,
                      reply: Option<string>, message: string) returns (line: string)
    ensures line == Format(from, project, cwd, env, reply, message)
  {
    ghost var whole, body := Line(from, project, cwd, env, reply, message), Thread(reply, message) + message;
    var a, b, c := HeaderField(from, true), HeaderField(project, false), HeaderField(cwd, false);
    line := a + ['|'] + b + ['|'] + c + ['|'];
    HeaderFirst(a, b, c, Tagged(env, KEYS, body));
    for i := 0 to |KEYS|
      invariant line + Tagged(env, KEYS[i..], body) == whole
    {
      var v := Get(env, KEYS[i]);
      NextTag(line, Tag(KEYS[i], v), Tagged(env, KEYS[i..][1..], body), whole);
      assert KEYS[i..][1..] == KEYS[i + 1..];
      if v.Some? && IsTagValue(v.value) {
        line := line + (KeyText(KEYS[i]) + ":" + v.value + "|");
      } else {
        assert line + Tag(KEYS[i], v) == line;
      }
    }
    NextTag(line, Thread(reply, message), message, whole);
    match reply {
      case Some(id) => line := line + ("re:" + id + "|");
      case None => if StartsWithTag(message) { line := line + "re:|"; }
    }
    line := line + message;
    line := line + "\n";
  }

  // ----- reading -----

  /** At most `n` parts: the last keeps the separators after the first `n - 1`. */
  function SplitN(s: string, sep: char, n: nat): (parts: seq<string>)
    requires n > 0
    ensures 0 < |parts| <= n
    decreases n
  {
    if n == 1 then [s] else
    match SplitOnce(s, sep)
    case None => [s]
    case Some(cut) => [cut.0] + SplitN(cut.1, sep, n - 1)
  }

  /** The newline a writer ended the record with, and no other, is dropped. */
  function WireLine(content: string): string
  {
    if content != "" && content[|content| - 1] == '\n' then content[..|content| - 1] else content
  }

  /** What the segment before the next `|` is: a tag, the thread field, or text. */
  datatype Segment = Field(key: Key, value: string, rest: string) | Re(id: string, rest: string) | Text

  function NextSegment(message: string): (s: Segment)
    ensures !s.Text? ==> |s.rest| < |message|
  {
    match SplitOnce(message, '|')
    case None => Text
    case Some(cut) =>
      match SplitOnce(cut.0, ':')
      case None => Text
      case Some(pair) =>
        if pair.0 == "re" && (pair.1 == "" || IsSignalId(pair.1)) then Re(pair.1, cut.1)
        else match KeyOf(pair.0)
             case None => Text
             case Some(k) => Field(k, pair.1, cut.1)
  }

  /** The signal once the tags its message starts with are taken off it. */
  function ReadTags(sig: Signal): Signal
    decreases |sig.message|
  {
    match NextSegment(sig.message)
    case Text => sig
    case Re(id, rest) => sig.(reply := if id == "" then None else Some(id), message := rest)
    case Field(k, v, rest) =>
      if Get(sig.env, k).Some? || !IsTagValue(v) then sig
      else ReadTags(sig.(env := Put(sig.env, k, v), message := rest))
  }

  function Parse(content: string): Option<Signal>
  {
    var parts := SplitN(content, '|', 4);
    if |parts| < 4 || !Plain(parts[0]) || !Plain(parts[1]) || !Plain(parts[2]) then None
    else Some(ReadTags(Signal(OneWord(parts[0]), parts[1], parts[2], BARE, None, parts[3])))
  }

  method ParseSignal(content: string) returns (r: Option<Signal>)
    ensures r == Parse(content)
  {
    var parts := SplitN(content, '|', 4);
    if |parts| < 4 { return None; }
    if !Plain(parts[0]) || !Plain(parts[1]) || !Plain(parts[2]) { return None; }
    var sig := Signal(OneWord(parts[0]), parts[1], parts[2], BARE, None, parts[3]);
    ghost var whole := ReadTags(sig);
    while true
      invariant ReadTags(sig) == whole
      decreases |sig.message|
    {
      var cut := SplitOnce(sig.message, '|');
      if cut.None? { break; }
      var pair := SplitOnce(cut.value.0, ':');
      if pair.None? { break; }
      var key, value := pair.value.0, pair.value.1;
      if key == "re" && (value == "" || IsSignalId(value)) {
        sig := sig.(reply := if value == "" then None else Some(value), message := cut.value.1);
        return Some(sig);
      }
      var slot := KeyOf(key);
      if slot.None? { break; }
      if Get(sig.env, slot.value).Some? || !IsTagValue(value) { break; }
      sig := sig.(env := Put(sig.env, slot.value, value), message := cut.value.1);
    }
    return Some(sig);
  }

  // ----- the round trip -----

  /** Only the tags whose values are in class. */
  function Kept(v: Option<string>): Option<string> { if v.Some? && IsTagValue(v.value) then v else None }

  function InClass(env: Envelope): Envelope
  {
    Envelope(Kept(env.fromKind), Kept(env.fromId), Kept(env.onBehalfOf), Kept(env.to))
  }

  predicate GoodReply(reply: Option<string>) { reply.None? || IsSignalId(reply.value) }

  lemma {:induction false} SegmentRead(key: string, v: string, rest: string)
    requires ':' !in key && '|' !in key && '|' !in v
    ensures SplitOnce(key + ":" + v + "|" + rest, '|') == Some((key + ":" + v, rest))
    ensures SplitOnce(key + ":" + v, ':') == Some((key, v))
  {
    assert '|' !in key + ":" + v;
    SplitOnceAt(key + ":" + v, '|', rest);
    SplitOnceAt(key, ':', v);
    assert key + ":" + v + "|" + rest == key + ":" + v + ['|'] + rest;
  }

  lemma {:induction false} KeyRead(k: Key, v: string, rest: string)
    requires '|' !in v
    ensures NextSegment(KeyText(k) + ":" + v + "|" + rest) == Field(k, v, rest)
  {
    assert '|' !in KeyText(k) && ':' !in KeyText(k);
    SegmentRead(KeyText(k), v, rest);
    assert KeyText(k) != "re" && KeyOf(KeyText(k)) == Some(k);
  }

  lemma {:induction false} FieldRead(k: Key, v: string, rest: string)
    requires IsTagValue(v)
    ensures NextSegment(KeyText(k) + ":" + v + "|" + rest) == Field(k, v, rest)
  {
    assert '|' !in v by { assert forall i | 0 <= i < |v| :: v[i] != '|'; }
    KeyRead(k, v, rest);
  }

  lemma {:induction false} ThreadRead(id: string, rest: string)
    requires id == "" || IsSignalId(id)
    ensures NextSegment("re:" + id + "|" + rest) == Re(id, rest)
  {
    assert '|' !in id by { assert forall i | 0 <= i < |id| :: id[i] != '|'; }
    SplitOnceAt("re:" + id, '|', rest);
    SplitOnceAt("re", ':', id);
    assert "re:" + id + "|" + rest == "re:" + id + ['|'] + rest;
    assert "re:" + id == "re" + [':'] + id;
  }

  /** A message that does not begin like a tag is all text. */
  lemma {:induction false} TextRead(message: string)
    requires !StartsWithTag(message)
    ensures NextSegment(message).Text?
  {
    var s := NextSegment(message);
    if !s.Text? {
      var cut := SplitOnce(message, '|').value;
      var pair := SplitOnce(cut.0, ':').value;
      KnownTag(pair.0);
      Leads(pair.0, pair.1, cut.1, message);
    }
  }

  lemma {:induction false} KnownTag(t: string)
    requires t == "re" || KeyOf(t).Some?
    ensures t in TAGS
  {
    assert TAGS[0] == "from_kind" && TAGS[1] == "from_id" && TAGS[2] == "on_behalf_of";
    assert TAGS[3] == "to" && TAGS[4] == "re";
  }

  lemma {:induction false} Leads(t: string, v: string, rest: string, message: string)
    requires t in TAGS && message == (t + [':'] + v) + ['|'] + rest
    ensures StartsWithTag(message)
  {
    assert t + ":" <= message;
  }

  /** The thread field and the message are read back, whatever the message looks like. */
  lemma {:induction false} ThreadAndMessage(sig: Signal, reply: Option<string>, message: string)
    requires GoodReply(reply) && sig.reply.None? && sig.message == Thread(reply, message) + message
    ensures ReadTags(sig) == sig.(reply := reply, message := message)
  {
    if reply.Some? {
      ThreadRead(reply.value, message);
      assert sig.message == "re:" + reply.value + "|" + message;
    } else if StartsWithTag(message) {
      ThreadRead("", message);
      assert sig.message == "re:" + "" + "|" + message;
    } else {
      assert sig.message == message;
      TextRead(message);
    }
  }

  /** Reading one tag of the envelope fills its slot, and one left out changes nothing. */
  lemma {:induction false} OneTag(sig: Signal, k: Key, v: Option<string>, rest: string, after: Signal)
    requires Get(sig.env, k).None? && sig.message == Tag(k, v) + rest
    requires after == sig.(env := WithTag(sig.env, k, v), message := rest)
    ensures ReadTags(sig) == ReadTags(after)
  {
    if Kept(v).Some? {
      FieldRead(k, v.value, rest);
      assert sig.message == KeyText(k) + ":" + v.value + "|" + rest;
    } else {
      assert sig.message == rest;
    }
  }

  /** `env` with the tags of `keys` that a writer of `sent` writes. */
  function Filled(env: Envelope, sent: Envelope, keys: seq<Key>): Envelope
    decreases |keys|
  {
    if keys == [] then env else Filled(WithTag(env, keys[0], Get(sent, keys[0])), sent, keys[1..])
  }

  function WithTag(env: Envelope, k: Key, v: Option<string>): Envelope
  {
    if Kept(v).Some? then Put(env, k, v.value) else env
  }

  lemma {:induction false} StaysFresh(env: Envelope, keys: seq<Key>, v: Option<string>)
    requires keys != [] && Fresh(env, keys)
    ensures Get(env, keys[0]).None? && Fresh(WithTag(env, keys[0], v), keys[1..])
  {
  }

  predicate Fresh(env: Envelope, keys: seq<Key>)
  {
    && (forall i | 0 <= i < |keys| :: Get(env, keys[i]).None?)
    && (forall i, j | 0 <= i < j < |keys| :: keys[i] != keys[j])
  }

  lemma {:induction false} AllTags(sig: Signal, env: Envelope, keys: seq<Key>, rest: string)
    requires Fresh(sig.env, keys) && sig.message == Tagged(env, keys, rest)
    ensures ReadTags(sig) == ReadTags(sig.(env := Filled(sig.env, env, keys), message := rest))
    decreases |keys|
  {
    if keys != [] {
      var v, tail := Get(env, keys[0]), Tagged(env, keys[1..], rest);
      StaysFresh(sig.env, keys, v);
      var after := sig.(env := WithTag(sig.env, keys[0], v), message := tail);
      OneTag(sig, keys[0], v, tail, after);
      AllTags(after, env, keys[1..], rest);
    }
  }

  lemma {:induction false} FilledBare(env: Envelope)
    ensures Fresh(BARE, KEYS) && Filled(BARE, env, KEYS) == InClass(env)
  {
    var k1, k2, k3 := KEYS[1..], KEYS[2..], KEYS[3..];
    assert KEYS[0] == FromKind && k1[0] == FromId && k2[0] == OnBehalfOf && k3[0] == To;
    assert k1[1..] == k2 && k2[1..] == k3 && k3[1..] == [];
    var e1 := BARE.(fromKind := Kept(env.fromKind));
    var e2 := e1.(fromId := Kept(env.fromId));
    var e3 := e2.(onBehalfOf := Kept(env.onBehalfOf));
    assert Filled(BARE, env, KEYS) == Filled(e1, env, k1);
    assert Filled(e1, env, k1) == Filled(e2, env, k2);
    assert Filled(e2, env, k2) == Filled(e3, env, k3);
    assert Filled(e3, env, k3) == Filled(InClass(env), env, []);
  }

  lemma {:induction false} CutAt(a: string, rest: string, n: nat)
    requires '|' !in a && n > 1
    ensures SplitN(a + ['|'] + rest, '|', n) == [a] + SplitN(rest, '|', n - 1)
  {
    SplitOnceAt(a, '|', rest);
  }

  /** The three header fields end at the first three separators. */
  lemma {:induction false} HeaderSplit(a: string, b: string, c: string, rest: string)
    requires '|' !in a && '|' !in b && '|' !in c
    ensures SplitN(Headed(a, b, c, rest), '|', 4) == [a] + ([b] + ([c] + [rest]))
  {
    CutAt(a, b + ['|'] + (c + ['|'] + rest), 4);
    CutAt(b, c + ['|'] + rest, 3);
    CutAt(c, rest, 2);
  }

  lemma {:induction false} FieldSafe(s: string, noSpace: bool)
    ensures '|' !in HeaderField(s, noSpace) && Plain(HeaderField(s, noSpace))
    ensures noSpace ==> OneWord(HeaderField(s, noSpace)) == HeaderField(s, noSpace)
  {
  }

  /** The signal a reader of a formatted line should see. */
  function Sent(from: string, project: string, cwd: string, env: Envelope, reply: Option<string>,
                message: string): Signal
  {
    Signal(HeaderField(from, true), HeaderField(project, false), HeaderField(cwd, false), InClass(env), reply, message)
  }

  lemma {:induction false} HeadedParse(a: string, b: string, c: string, rest: string)
    requires '|' !in a && '|' !in b && '|' !in c && Plain(a) && Plain(b) && Plain(c) && OneWord(a) == a
    ensures Parse(Headed(a, b, c, rest)) == Some(ReadTags(Signal(a, b, c, BARE, None, rest)))
  {
    HeaderSplit(a, b, c, rest);
  }

  /** The header reads as written, and the rest is left to the tags. */
  lemma {:induction false} LineParts(from: string, project: string, cwd: string, env: Envelope,
                                     reply: Option<string>, message: string, body: string)
    requires body == Thread(reply, message) + message
    ensures Parse(Line(from, project, cwd, env, reply, message))
         == Some(ReadTags(Signal(HeaderField(from, true), HeaderField(project, false), HeaderField(cwd, false),
                                 BARE, None, Tagged(env, KEYS, body))))
  {
    FieldSafe(from, true);
    FieldSafe(project, false);
    FieldSafe(cwd, false);
    HeadedParse(HeaderField(from, true), HeaderField(project, false), HeaderField(cwd, false), Tagged(env, KEYS, body));
  }

  lemma {:induction false} NewlineOff(line: string)
    ensures WireLine(line + "\n") == line
  {
  }

  /** A reader never reports a reply id outside its class. */
  lemma {:induction false} ReplyInClass(sig: Signal)
    requires GoodReply(sig.reply)
    ensures GoodReply(ReadTags(sig).reply)
    decreases |sig.message|
  {
    var s := NextSegment(sig.message);
    if s.Field? && Get(sig.env, s.key).None? && IsTagValue(s.value) {
      ReplyInClass(sig.(env := Put(sig.env, s.key, s.value), message := s.rest));
    }
  }

  /** A formatted line reads back as the sanitised header, exactly the tags whose values are in
      class, the reply and the message as sent -- when, and only when, the reply is absent or an id. */
  lemma {:induction false} RoundTrip(from: string, project: string, cwd: string, env: Envelope,
                                     reply: Option<string>, message: string)
    ensures Parse(WireLine(Format(from, project, cwd, env, reply, message)))
         == Some(Sent(from, project, cwd, env, reply, message))
       <==> GoodReply(reply)
  {
    var body := Thread(reply, message) + message;
    NewlineOff(Line(from, project, cwd, env, reply, message));
    LineParts(from, project, cwd, env, reply, message, body);
    var sig := Signal(HeaderField(from, true), HeaderField(project, false), HeaderField(cwd, false),
                      BARE, None, Tagged(env, KEYS, body));
    if GoodReply(reply) {
      FilledBare(env);
      AllTags(sig, env, KEYS, body);
      ThreadAndMessage(sig.(env := InClass(env), message := body), reply, message);
    } else {
      ReplyInClass(sig);
    }
  }

  // ----- what any parsed signal holds, and reformatting it -----

  predicate Normal(sig: Signal)
  {
    && HeaderField(sig.from, true) == sig.from && HeaderField(sig.project, false) == sig.project
    && HeaderField(sig.cwd, false) == sig.cwd && InClass(sig.env) == sig.env && GoodReply(sig.reply)
  }

  lemma {:induction false} PutNormal(sig: Signal, k: Key, v: string, rest: string)
    requires Normal(sig) && IsTagValue(v)
    ensures Normal(sig.(env := Put(sig.env, k, v), message := rest))
  {
  }

  lemma {:induction false} TagsNormal(sig: Signal)
    requires Normal(sig)
    ensures Normal(ReadTags(sig))
    decreases |sig.message|
  {
    var s := NextSegment(sig.message);
    if s.Field? && Get(sig.env, s.key).None? && IsTagValue(s.value) {
      PutNormal(sig, s.key, s.value, s.rest);
      TagsNormal(sig.(env := Put(sig.env, s.key, s.value), message := s.rest));
    }
  }

  lemma {:induction false} FieldNormal(s: string)
    requires '|' !in s && Plain(s)
    ensures HeaderField(s, false) == s && HeaderField(OneWord(s), true) == OneWord(s)
  {
    assert forall i | 0 <= i < |s| :: s[i] in s;
  }

  /** Every part but the last is free of separators. */
  predicate Bare(parts: seq<string>) { forall i | 0 <= i < |parts| - 1 :: '|' !in parts[i] }

  lemma {:induction false} PartsBare(s: string, n: nat)
    requires n > 0
    ensures Bare(SplitN(s, '|', n))
    decreases n
  {
    if n > 1 && SplitOnce(s, '|').Some? {
      var cut := SplitOnce(s, '|').value;
      PartsBare(cut.1, n - 1);
      var rest := SplitN(cut.1, '|', n - 1);
      var parts := [cut.0] + rest;
      forall i | 0 <= i < |parts| - 1 ensures '|' !in parts[i] {
        if i > 0 { assert parts[i] == rest[i - 1]; }
      }
      assert SplitN(s, '|', n) == parts;
    }
  }

  /** Formatting and reparsing a parsed signal changes nothing, whatever it was parsed from. */
  lemma {:induction false} Reformatted(content: string)
    requires Parse(content).Some?
    ensures var s := Parse(content).value;
            Parse(WireLine(Format(s.from, s.project, s.cwd, s.env, s.reply, s.message))) == Some(s)
  {
    var parts := SplitN(content, '|', 4);
    PartsBare(content, 4);
    FieldNormal(parts[0]);
    FieldNormal(parts[1]);
    FieldNormal(parts[2]);
    TagsNormal(Signal(OneWord(parts[0]), parts[1], parts[2], BARE, None, parts[3]));
    var s := Parse(content).value;
    RoundTrip(s.from, s.project, s.cwd, s.env, s.reply, s.message);
  }

  // ----- what comes back exactly as sent -----

  /** ASCII letters, digits and the characters given, at least one. */
  predicate OfClass(v: string, others: string)
  {
    v != "" && forall c | c in v :: 'a' <= c <= 'z' || 'A' <= c <= 'Z' || '0' <= c <= '9' || c in others
  }

  lemma {:induction false} ClassesIff(v: string)
    ensures IsTagValue(v) <==> OfClass(v, "_@.,:/#*-")
    ensures IsSignalId(v) <==> OfClass(v, "_-")
  {
    assert forall i | 0 <= i < |v| :: v[i] in v;
  }

  /** The header field can be sent as it is: no separator, no control character, and with `noSpace` no
      whitespace. */
  predicate Sendable(s: string, noSpace: bool)
  {
    forall c | c in s :: c != '|' && !IsControl(c) && (noSpace ==> !IsWhitespace(c))
  }

  lemma {:induction false} SendableKept(s: string, noSpace: bool)
    requires Sendable(s, noSpace)
    ensures HeaderField(s, noSpace) == s && (noSpace ==> OneWord(s) == s)
  {
    assert forall i | 0 <= i < |s| :: s[i] in s;
  }

  predicate TagSendable(v: Option<string>) { v.Some? ==> OfClass(v.value, "_@.,:/#*-") }

  /** A signal whose header, tags and reply are in class comes back exactly as it was sent, whatever its
      message. */
  lemma {:induction false} SentAsIs(sig: Signal)
    requires Sendable(sig.from, true) && Sendable(sig.project, false) && Sendable(sig.cwd, false)
    requires TagSendable(sig.env.fromKind) && TagSendable(sig.env.fromId)
    requires TagSendable(sig.env.onBehalfOf) && TagSendable(sig.env.to)
    requires sig.reply.Some? ==> OfClass(sig.reply.value, "_-")
    ensures Parse(WireLine(Format(sig.from, sig.project, sig.cwd, sig.env, sig.reply, sig.message))) == Some(sig)
  {
    SendableKept(sig.from, true);
    SendableKept(sig.project, false);
    SendableKept(sig.cwd, false);
    forall v | TagSendable(v) ensures Kept(v) == v {
      if v.Some? { ClassesIff(v.value); }
    }
    if sig.reply.Some? { ClassesIff(sig.reply.value); }
    RoundTrip(sig.from, sig.project, sig.cwd, sig.env, sig.reply, sig.message);
  }

  /** One tag as it is written, when it is. */
  function Written(key: string, v: Option<string>): string { if v.Some? then key + ":" + v.value + "|" else "" }

  /** The message starts with a tag's name and its colon. */
  predicate LooksTagged(m: string)
  {
    "from_kind:" <= m || "from_id:" <= m || "on_behalf_of:" <= m || "to:" <= m || "re:" <= m
  }

  lemma {:induction false} TaggedIff(m: string)
    ensures StartsWithTag(m) <==> LooksTagged(m)
  {
    assert TAGS[0] == "from_kind" && TAGS[1] == "from_id" && TAGS[2] == "on_behalf_of";
    assert TAGS[3] == "to" && TAGS[4] == "re";
    assert "from_kind" + ":" == "from_kind:" && "from_id" + ":" == "from_id:";
    assert "on_behalf_of" + ":" == "on_behalf_of:" && "to" + ":" == "to:" && "re" + ":" == "re:";
    assert TAGS[0] in TAGS && TAGS[1] in TAGS && TAGS[2] in TAGS && TAGS[3] in TAGS && TAGS[4] in TAGS;
  }

  /** The thread field as it is written: the id, or an empty one before a message that looks tagged. */
  function ThreadField(reply: Option<string>, message: string): string
  {
    if reply.Some? then "re:" + reply.value + "|" else if LooksTagged(message) then "re:|" else ""
  }

  /** The line itself: the header, the tags in their order, the thread field and the message. */
  lemma {:induction false} LineText(sig: Signal)
    requires Sendable(sig.from, true) && Sendable(sig.project, false) && Sendable(sig.cwd, false)
    requires TagSendable(sig.env.fromKind) && TagSendable(sig.env.fromId)
    requires TagSendable(sig.env.onBehalfOf) && TagSendable(sig.env.to)
    ensures Format(sig.from, sig.project, sig.cwd, sig.env, sig.reply, sig.message)
         == (sig.from + "|" + (sig.project + "|" + (sig.cwd + "|" +
             (Written("from_kind", sig.env.fromKind) + (Written("from_id", sig.env.fromId)
              + (Written("on_behalf_of", sig.env.onBehalfOf) + (Written("to", sig.env.to)
                 + (ThreadField(sig.reply, sig.message) + sig.message)))))))) + "\n"
  {
    SendableKept(sig.from, true);
    SendableKept(sig.project, false);
    SendableKept(sig.cwd, false);
    TaggedIff(sig.message);
    forall k: Key, v | TagSendable(v) ensures Tag(k, v) == Written(KeyText(k), v) {
      if v.Some? { ClassesIff(v.value); }
    }
    FourTags(sig.env, ThreadField(sig.reply, sig.message) + sig.message);
  }

  lemma {:induction false} FourTags(env: Envelope, rest: string)
    ensures Tagged(env, KEYS, rest)
         == Tag(FromKind, env.fromKind) + (Tag(FromId, env.fromId)
            + (Tag(OnBehalfOf, env.onBehalfOf) + (Tag(To, env.to) + rest)))
  {
    var k1, k2, k3 := KEYS[1..], KEYS[2..], KEYS[3..];
    assert KEYS[0] == FromKind && k1[0] == FromId && k2[0] == OnBehalfOf && k3[0] == To;
    assert k1[1..] == k2 && k2[1..] == k3 && k3[1..] == [];
    assert Tagged(env, k3, rest) == Tag(To, env.to) + Tagged(env, [], rest);
    assert Tagged(env, k2, rest) == Tag(OnBehalfOf, env.onBehalfOf) + Tagged(env, k3, rest);
    assert Tagged(env, k1, rest) == Tag(FromId, env.fromId) + Tagged(env, k2, rest);
  }

  // ----- what a reader makes of any line -----

  predicate HeaderOf(a: string, b: string, c: string)
  {
    '|' !in a && '|' !in b && '|' !in c && Plain(a) && Plain(b) && Plain(c)
  }

  /** A line is a signal exactly when three fields without a control character end at separators before the
      rest. */
  lemma {:induction false} ParsesIff(content: string)
    ensures Parse(content).Some? <==>
              exists a, b, c, rest :: HeaderOf(a, b, c) && content == Headed(a, b, c, rest)
  {
    if Parse(content).Some? {
      var parts := SplitN(content, '|', 4);
      PartsBare(content, 4);
      SplitHeaded(content);
      assert HeaderOf(parts[0], parts[1], parts[2]);
    }
    if a, b, c, rest :| HeaderOf(a, b, c) && content == Headed(a, b, c, rest) {
      HeaderSplit(a, b, c, rest);
    }
  }

  lemma {:induction false} SplitHeaded(content: string)
    requires |SplitN(content, '|', 4)| == 4
    ensures var p := SplitN(content, '|', 4); content == Headed(p[0], p[1], p[2], p[3])
  {
    var x := SplitOnce(content, '|').value;
    var y := SplitOnce(x.1, '|').value;
    var z := SplitOnce(y.1, '|').value;
    assert SplitN(y.1, '|', 2) == [z.0] + SplitN(z.1, '|', 1);
    assert SplitN(x.1, '|', 3) == [y.0] + SplitN(y.1, '|', 2);
    assert SplitN(content, '|', 4) == [x.0] + SplitN(x.1, '|', 3);
  }

  /** A header with a message that no tag starts reads as they are, whitespace in the sender mended. */
  lemma {:induction false} PlainRead(a: string, b: string, c: string, message: string)
    requires HeaderOf(a, b, c) && !StartsWithTag(message)
    ensures Parse(Headed(a, b, c, message)) == Some(Signal(OneWord(a), b, c, BARE, None, message))
  {
    HeaderSplit(a, b, c, message);
    TextRead(message);
  }

  /** A tag with a value out of class, a second tag of one key, and a thread field that names no id are the
      message's own text. */
  lemma {:induction false} BadTagStays(sig: Signal, k: Key, v: string, rest: string)
    requires '|' !in v && (!OfClass(v, "_@.,:/#*-") || Get(sig.env, k).Some?)
    requires sig.message == KeyText(k) + ":" + v + "|" + rest
    ensures ReadTags(sig) == sig
  {
    ClassesIff(v);
    KeyRead(k, v, rest);
  }

  lemma {:induction false} NoKey()
    ensures KeyOf("re").None? && ':' !in "re" && '|' !in "re"
  {
  }

  lemma {:induction false} ThreadText(id: string, rest: string, message: string)
    requires '|' !in id && id != "" && !IsSignalId(id) && message == "re" + ":" + id + "|" + rest
    ensures NextSegment(message).Text?
  {
    NoKey();
    SegmentRead("re", id, rest);
  }

  lemma {:induction false} BadThreadStays(sig: Signal, id: string, rest: string)
    requires '|' !in id && id != "" && !OfClass(id, "_-") && sig.message == "re" + ":" + id + "|" + rest
    ensures ReadTags(sig) == sig
  {
    ClassesIff(id);
    ThreadText(id, rest, sig.message);
  }
}
