/** The block a delivery of peer messages is wrapped in, and how its lines are read back (attend's `lib.ts`). */
module Frame {
  import opened Basics

  // ----- one line -----

  /** Unicode's format characters (Cf). */
  predicate IsFormat(c: char)
  {
    || c == '\U{AD}' || '\U{600}' <= c <= '\U{605}' || c == '\U{61C}' || c == '\U{6DD}' || c == '\U{70F}'
    || '\U{890}' <= c <= '\U{891}' || c == '\U{8E2}' || c == '\U{180E}' || '\U{200B}' <= c <= '\U{200F}'
    || '\U{202A}' <= c <= '\U{202E}' || '\U{2060}' <= c <= '\U{2064}' || '\U{2066}' <= c <= '\U{206F}'
    || c == '\U{FEFF}' || '\U{FFF9}' <= c <= '\U{FFFB}' || c == '\U{110BD}' || c == '\U{110CD}'
    || '\U{13430}' <= c <= '\U{1343F}' || '\U{1BCA0}' <= c <= '\U{1BCA3}' || '\U{1D173}' <= c <= '\U{1D17A}'
    || c == '\U{E0001}' || '\U{E0020}' <= c <= '\U{E007F}'
  }

  /** What `oneLine` makes a space. */
  predicate Gap(c: char) { IsWhitespace(c) || IsControl(c) || IsFormat(c) }

  function DropGaps(gap: char -> bool, s: string): (t: string)
    ensures |t| <= |s| && (t != "" ==> !gap(t[0]))
  {
    if s != "" && gap(s[0]) then DropGaps(gap, s[1..]) else s
  }

  /** Each run of gaps as one space. */
  function Collapse(gap: char -> bool, s: string): string
    decreases |s|
  {
    if s == "" then ""
    else if gap(s[0]) then [' '] + Collapse(gap, DropGaps(gap, s[1..]))
    else [s[0]] + Collapse(gap, s[1..])
  }

  /** What JavaScript's `trim` takes off. */
  predicate IsTrimmed(c: char) { (IsWhitespace(c) && c != '\U{85}') || c == '\U{FEFF}' }

  function TrimLeft(s: string): string { if s != "" && IsTrimmed(s[0]) then TrimLeft(s[1..]) else s }

  function TrimRight(s: string): string
  {
    if s != "" && IsTrimmed(s[|s| - 1]) then TrimRight(s[..|s| - 1]) else s
  }

  function Trim(s: string): string { TrimRight(TrimLeft(s)) }

  function OneLine(s: string): string { Trim(Collapse(Gap, s)) }

  /** No gap but single spaces, and none at either end. */
  predicate IsOneLine(s: string)
  {
    && (forall i | 0 <= i < |s| && Gap(s[i]) :: s[i] == ' ')
    && (forall i | 0 < i < |s| && s[i - 1] == ' ' :: s[i] != ' ')
    && (s != "" ==> s[0] != ' ' && s[|s| - 1] != ' ')
  }

  /** No gap but single spaces, wherever they are. */
  predicate Spaced(s: string)
  {
    && (forall i | 0 <= i < |s| && Gap(s[i]) :: s[i] == ' ')
    && (forall i | 0 < i < |s| && s[i - 1] == ' ' :: s[i] != ' ')
  }

  lemma {:induction false} CollapseSpaced(s: string)
    ensures Spaced(Collapse(Gap, s))
    ensures s != "" && !Gap(s[0]) ==> Collapse(Gap, s) != "" && Collapse(Gap, s)[0] == s[0]
    decreases |s|
  {
    if s != "" {
      CollapseSpaced(if Gap(s[0]) then DropGaps(Gap, s[1..]) else s[1..]);
    }
  }

  lemma {:induction false} TrimLeftSpaced(s: string)
    requires Spaced(s)
    ensures Spaced(TrimLeft(s)) && (TrimLeft(s) != "" ==> TrimLeft(s)[0] != ' ')
    decreases |s|
  {
    if s != "" && IsTrimmed(s[0]) { TrimLeftSpaced(s[1..]); }
  }

  lemma {:induction false} TrimRightSpaced(s: string)
    requires Spaced(s) && (s != "" ==> s[0] != ' ')
    ensures IsOneLine(TrimRight(s))
    decreases |s|
  {
    if s != "" && IsTrimmed(s[|s| - 1]) { TrimRightSpaced(s[..|s| - 1]); }
  }

  /** Whatever the text, it becomes one line. */
  lemma {:induction false} OneLineIs(s: string)
    ensures IsOneLine(OneLine(s))
  {
    CollapseSpaced(s);
    TrimLeftSpaced(Collapse(Gap, s));
    TrimRightSpaced(TrimLeft(Collapse(Gap, s)));
  }

  lemma {:induction false} CollapseSame(s: string)
    requires Spaced(s)
    ensures Collapse(Gap, s) == s
    decreases |s|
  {
    if s != "" {
      CollapseSame(s[1..]);
      assert s == [s[0]] + s[1..];
    }
  }

  /** A text that is one line stays as it is. */
  lemma {:induction false} OneLineSame(s: string)
    requires IsOneLine(s)
    ensures OneLine(s) == s && Trim(s) == s
  {
    CollapseSame(s);
  }

  /** Printable ASCII is no gap but the space, and line ends, control characters, the line and paragraph separators
      and the zero-width characters are. */
  lemma {:induction false} GapsAre(c: char)
    ensures '!' <= c <= '~' ==> !Gap(c)
    ensures c <= ' ' || '\U{7F}' <= c <= '\U{A0}' ==> Gap(c)
    ensures c in {'\U{AD}', '\U{2028}', '\U{2029}', '\U{3000}', '\U{2060}', '\U{FEFF}'} ==> Gap(c)
    ensures '\U{200B}' <= c <= '\U{200F}' || '\U{202A}' <= c <= '\U{202E}' ==> Gap(c)
    ensures '\U{E0020}' <= c <= '\U{E007F}' ==> Gap(c)
  {
  }

  /** Words of printable ASCII with single spaces between are one line already. */
  lemma {:induction false} PlainKept(s: string)
    requires forall c | c in s :: ' ' <= c <= '~'
    requires s != "" ==> s[0] != ' ' && s[|s| - 1] != ' '
    requires forall i | 0 < i < |s| :: s[i - 1] != ' ' || s[i] != ' '
    ensures OneLine(s) == s
  {
    forall i | 0 <= i < |s| && Gap(s[i]) ensures s[i] == ' ' {
      GapsAre(s[i]);
      assert s[i] in s;
    }
    OneLineSame(s);
  }

  /** The runs of characters that are no gaps. */
  function Words(gap: char -> bool, s: string): (ws: seq<string>)
    ensures s != "" && !gap(s[0]) ==> ws != []
    ensures forall i | 0 <= i < |ws| :: ws[i] != ""
    decreases |s|
  {
    if s == "" then [] else
    var rest := Words(gap, s[1..]);
    if gap(s[0]) then rest
    else if |s| == 1 || gap(s[1]) then [[s[0]]] + rest
    else [[s[0]] + rest[0]] + rest[1..]
  }

  lemma {:induction false} DropWords(gap: char -> bool, s: string)
    ensures Words(gap, DropGaps(gap, s)) == Words(gap, s)
    decreases |s|
  {
    if s != "" && gap(s[0]) { DropWords(gap, s[1..]); }
  }

  /** A text that starts with a word collapses to its words, and a space if a gap ends it. */
  lemma {:induction false} CollapseWords(gap: char -> bool, s: string)
    requires s != "" && !gap(s[0])
    ensures Collapse(gap, s) == Join(Words(gap, s), ' ') + (if gap(s[|s| - 1]) then " " else "")
    decreases |s|
  {
    var c, t := s[0], s[1..];
    var last := if gap(s[|s| - 1]) then " " else "";
    if t == "" {
      LoneWord(gap, s, c);
    } else if !gap(t[0]) {
      CollapseWords(gap, t);
      SameWord(gap, s, c, t);
      JoinFirst(c, Words(gap, t), last);
    } else {
      var u := DropGaps(gap, t[1..]);
      DropEnds(gap, t[1..]);
      if u != "" { CollapseWords(gap, u); }
      GapCase(gap, s, c, u, last);
    }
  }

  lemma {:induction false} GapCase(gap: char -> bool, s: string, c: char, u: string, last: string)
    requires |s| > 1 && c == s[0] && !gap(c) && gap(s[1]) && u == DropGaps(gap, s[1..][1..])
    requires if u == "" then last == " " else Words(gap, u) != [] && Collapse(gap, u) == Join(Words(gap, u), ' ') + last
    ensures Collapse(gap, s) == Join(Words(gap, s), ' ') + last
  {
    GapWords(gap, s, c, u);
    if u != "" {
      JoinMore(c, Words(gap, u), last);
    } else {
      LastWord(gap, c, Collapse(gap, s));
    }
  }

  lemma {:induction false} LoneWord(gap: char -> bool, s: string, c: char)
    requires s == [c] && !gap(c)
    ensures Collapse(gap, s) == Join(Words(gap, s), ' ') + ""
  {
    assert s[1..] == "" && [[c]] + [] == [[c]];
    assert Collapse(gap, s) == [c] && Words(gap, s) == [[c]];
  }

  lemma {:induction false} LastWord(gap: char -> bool, c: char, collapsed: string)
    requires collapsed == [c] + ([' '] + Collapse(gap, ""))
    ensures collapsed == Join([[c]] + Words(gap, ""), ' ') + " "
  {
    assert [[c]] + Words(gap, "") == [[c]];
  }

  lemma {:induction false} SameWord(gap: char -> bool, s: string, c: char, t: string)
    requires |s| > 1 && c == s[0] && t == s[1..] && !gap(c) && !gap(t[0])
    ensures Collapse(gap, s) == [c] + Collapse(gap, t)
    ensures Words(gap, t) != [] && Words(gap, s) == [[c] + Words(gap, t)[0]] + Words(gap, t)[1..]
  {
  }

  /** A gap after the first character ends the word it is. */
  lemma {:induction false} GapWords(gap: char -> bool, s: string, c: char, u: string)
    requires |s| > 1 && c == s[0] && !gap(c) && gap(s[1]) && u == DropGaps(gap, s[1..][1..])
    ensures Collapse(gap, s) == [c] + ([' '] + Collapse(gap, u))
    ensures Words(gap, s) == [[c]] + Words(gap, u)
  {
    DropWords(gap, s[1..][1..]);
  }

  lemma {:induction false} JoinMore(c: char, ws: seq<string>, last: string)
    requires ws != []
    ensures Join([[c]] + ws, ' ') + last == [c] + ([' '] + (Join(ws, ' ') + last))
  {
    assert ([[c]] + ws)[1..] == ws;
  }

  lemma {:induction false} JoinFirst(c: char, ws: seq<string>, last: string)
    requires ws != []
    ensures Join([[c] + ws[0]] + ws[1..], ' ') + last == [c] + (Join(ws, ' ') + last)
  {
    assert ([[c] + ws[0]] + ws[1..])[1..] == ws[1..];
  }

  lemma {:induction false} DropEnds(gap: char -> bool, s: string)
    ensures DropGaps(gap, s) == "" ==> forall i | 0 <= i < |s| :: gap(s[i])
    ensures DropGaps(gap, s) != "" ==> DropGaps(gap, s)[|DropGaps(gap, s)| - 1] == s[|s| - 1]
    decreases |s|
  {
    if s != "" && gap(s[0]) { DropEnds(gap, s[1..]); }
  }

  /** Words are of characters that are no gaps. */
  lemma {:induction false} JoinEnds(gap: char -> bool, s: string)
    ensures var j := Join(Words(gap, s), ' '); j != "" ==> !gap(j[0]) && !gap(j[|j| - 1])
    decreases |s|
  {
    if s != "" {
      JoinEnds(gap, s[1..]);
      var rest := Words(gap, s[1..]);
      if !gap(s[0]) && |s| > 1 {
        if !gap(s[1]) {
          JoinFirst(s[0], rest, "");
          NoEmptyJoin(rest);
          assert Join(rest, ' ') + "" == "" + (Join(rest, ' ') + "");
          OuterEnds([s[0]], "", Join(rest, ' '), Join(Words(gap, s), ' '));
        } else if rest != [] {
          JoinMore(s[0], rest, "");
          NoEmptyJoin(rest);
          OuterEnds([s[0]], [' '], Join(rest, ' '), Join(Words(gap, s), ' '));
        }
      }
    }
  }

  lemma {:induction false} OuterEnds(a: string, b: string, c: string, j: string)
    requires a != "" && c != "" && j + "" == a + (b + (c + ""))
    ensures j != "" && j[0] == a[0] && j[|j| - 1] == c[|c| - 1]
  {
    assert c + "" == c && j + "" == j;
    assert j == a + b + c;
  }

  lemma {:induction false} NoEmptyJoin(ws: seq<string>)
    requires ws != [] && ws[0] != ""
    ensures Join(ws, ' ') != ""
  {
  }

  lemma {:induction false} TrimOne(s: string, left: string, right: string)
    requires left in ["", " "] && right in ["", " "]
    requires s != "" ==> !Gap(s[0]) && !Gap(s[|s| - 1])
    ensures Trim(left + s + right) == s
  {
    var t := left + s + right;
    if s == "" {
      AllTrimmed(t);
    } else {
      if left == " " { assert t[1..] == s + right; }
      assert TrimLeft(t) == s + right;
      assert TrimRight(s) == s;
      assert right == " " ==> (s + right)[..|s|] == s;
      assert right == "" ==> s + right == s;
    }
  }

  lemma {:induction false} AllTrimmed(t: string)
    requires forall i | 0 <= i < |t| :: t[i] == ' '
    ensures Trim(t) == ""
  {
    if t != "" { AllTrimmed(t[1..]); }
  }

  /** A line of nothing but gaps. */
  lemma {:induction false} BlankLine(s: string)
    requires DropGaps(Gap, s) == ""
    ensures OneLine(s) == ""
  {
    var left := if s != "" && Gap(s[0]) then " " else "";
    CollapseDrop(Gap, s);
    assert left + "" + "" == left + "";
    TrimOne("", left, "");
  }

  /** One line is the text's words with single spaces between. */
  lemma {:induction false} OneLineWords(s: string)
    ensures OneLine(s) == Join(Words(Gap, s), ' ')
  {
    var body := DropGaps(Gap, s);
    DropWords(Gap, s);
    if body == "" {
      BlankLine(s);
    } else {
      JoinEnds(Gap, s);
      CollapseDrop(Gap, s);
      CollapseWords(Gap, body);
      LineOf(if s != "" && Gap(s[0]) then " " else "", Join(Words(Gap, s), ' '),
             if Gap(body[|body| - 1]) then " " else "", Collapse(Gap, s));
    }
  }

  lemma {:induction false} LineOf(left: string, words: string, right: string, collapsed: string)
    requires left in ["", " "] && right in ["", " "] && collapsed == left + (words + right)
    requires words != "" ==> !Gap(words[0]) && !Gap(words[|words| - 1])
    ensures Trim(collapsed) == words
  {
    assert left + (words + right) == left + words + right;
    TrimOne(words, left, right);
  }

  lemma {:induction false} CollapseDrop(gap: char -> bool, s: string)
    ensures Collapse(gap, s) == (if s != "" && gap(s[0]) then " " else "") + Collapse(gap, DropGaps(gap, s))
  {
    if s != "" && gap(s[0]) {
      assert DropGaps(gap, s) == DropGaps(gap, s[1..]);
    }
  }

  // ----- the fence -----

  const GUILLEMET: char := '\U{2039}'

  function SkipSpaces(s: string, j: nat): (k: nat)
    requires j <= |s|
    ensures j <= k <= |s|
    ensures k > j ==> s[j] == ' '
    decreases |s| - j
  {
    if j < |s| && s[j] == ' ' then SkipSpaces(s, j + 1) else j
  }

  predicate Allowed(c: char) { IsAsciiAlnum(c) || c == '<' || c == '=' || c == '(' || c == '-' }

  function Lower(c: char): char { if 'A' <= c <= 'Z' then ((c as int) + 32) as char else c }

  /** The word `attend` starts at `j`, in any case. */
  predicate AttendAt(s: string, j: nat)
  {
    && j + 6 <= |s| && Lower(s[j]) == 'a' && Lower(s[j + 1]) == 't' && Lower(s[j + 2]) == 't'
    && Lower(s[j + 3]) == 'e' && Lower(s[j + 4]) == 'n' && Lower(s[j + 5]) == 'd'
  }

  /** Whether a `<` at `i` stays: what follows its spaces is allowed and is not the word. */
  predicate Keeps(s: string, i: nat)
    requires i < |s|
  {
    var j := SkipSpaces(s, i + 1);
    j < |s| && Allowed(s[j]) && !AttendAt(s, j)
  }

  /** `defuseFence`: each `<` judged on the original text. */
  function Defuse(s: string): (d: string)
    ensures |d| == |s|
  {
    seq(|s|, i requires 0 <= i < |s| => if s[i] == '<' && !Keeps(s, i) then GUILLEMET else s[i])
  }

  /** Where the spaces behind `i` end. */
  ghost predicate AfterSpaces(s: string, i: nat, j: nat) { i < j <= |s| && forall n | i < n < j :: s[n] == ' ' }

  /** The word `attend`, each letter small or capital. */
  predicate SpellsAttend(s: string, j: nat)
  {
    && j + 6 <= |s| && (s[j] == 'a' || s[j] == 'A') && (s[j + 1] == 't' || s[j + 1] == 'T')
    && (s[j + 2] == 't' || s[j + 2] == 'T') && (s[j + 3] == 'e' || s[j + 3] == 'E')
    && (s[j + 4] == 'n' || s[j + 4] == 'N') && (s[j + 5] == 'd' || s[j + 5] == 'D')
  }

  /** A `<` may stay where, after any spaces, an ASCII letter or digit or one of `<=(-` stands, and the word there
      is not `attend`. */
  ghost predicate MayStay(s: string, i: nat) { exists j: nat :: StaysFor(s, i, j) }

  ghost predicate StaysFor(s: string, i: nat, j: nat)
  {
    && AfterSpaces(s, i, j) && j < |s| && !SpellsAttend(s, j)
    && ('a' <= s[j] <= 'z' || 'A' <= s[j] <= 'Z' || '0' <= s[j] <= '9' || s[j] in "<=(-")
  }

  lemma {:induction false} SpacesEnd(s: string, i: nat, j: nat)
    requires AfterSpaces(s, i, j) && j < |s| && s[j] != ' '
    ensures SkipSpaces(s, i + 1) == j
    decreases j - i
  {
    if i + 1 < j { SpacesEnd(s, i + 1, j); }
  }

  lemma {:induction false} SpacesSkipped(s: string, i: nat)
    requires i < |s|
    ensures AfterSpaces(s, i, SkipSpaces(s, i + 1))
    decreases |s| - i
  {
    if i + 1 < |s| && s[i + 1] == ' ' { SpacesSkipped(s, i + 1); }
  }

  lemma {:induction false} AttendIff(s: string, j: nat)
    ensures AttendAt(s, j) <==> SpellsAttend(s, j)
  {
  }

  lemma {:induction false} KeepsIff(s: string, i: nat)
    requires i < |s|
    ensures Keeps(s, i) <==> MayStay(s, i)
  {
    var k := SkipSpaces(s, i + 1);
    SpacesSkipped(s, i);
    AttendIff(s, k);
    if j: nat :| StaysFor(s, i, j) {
      SpacesEnd(s, i, j);
    }
    assert Keeps(s, i) ==> StaysFor(s, i, k);
  }

  /** Only a `<` changes, into a guillemet, and exactly where it may not stay. */
  lemma {:induction false} DefuseExact(s: string, i: nat)
    requires i < |s|
    ensures Defuse(s)[i] == if s[i] == '<' && !MayStay(s, i) then '\U{2039}' else s[i]
  {
    KeepsIff(s, i);
  }

  /** What follows the `<` at `i`, however many spaces on, starts neither tag: no slash, and not the word in
      any case. */
  predicate Guarded(s: string, i: nat)
    requires i < |s|
  {
    var j := SkipSpaces(s, i + 1);
    j < |s| && s[j] != '/' && !AttendAt(s, j)
  }

  predicate Safe(s: string) { forall i | 0 <= i < |s| && s[i] == '<' :: Guarded(s, i) }

  /** No line can start either tag once defused, whatever the spacing and case. */
  lemma {:induction false} DefusedSafe(s: string)
    ensures Safe(Defuse(s))
  {
    var d := Defuse(s);
    forall i | 0 <= i < |d| && d[i] == '<' ensures Guarded(d, i) {
      assert Keeps(s, i);
      SpacesKept(s, i + 1);
      AttendKept(s, SkipSpaces(s, i + 1));
    }
  }

  lemma {:induction false} SpacesKept(s: string, j: nat)
    requires j <= |s|
    ensures SkipSpaces(Defuse(s), j) == SkipSpaces(s, j)
    decreases |s| - j
  {
    if j < |s| && s[j] == ' ' { SpacesKept(s, j + 1); }
  }

  lemma {:induction false} AttendKept(s: string, j: nat)
    ensures AttendAt(Defuse(s), j) ==> AttendAt(s, j)
  {
    LowerKept(s);
  }

  lemma {:induction false} LowerKept(s: string)
    ensures forall j | 0 <= j < |s| && 'a' <= Lower(Defuse(s)[j]) <= 'z' :: Defuse(s)[j] == s[j]
  {
  }

  /** A line as the frame writes it. */
  function Clean(s: string): string { Defuse(OneLine(s)) }

  lemma {:induction false} CleanLine(s: string)
    ensures IsOneLine(Clean(s))
  {
    OneLineIs(s);
  }

  lemma {:induction false} CleanIs(s: string)
    ensures IsOneLine(Clean(s)) && Safe(Clean(s)) && '\n' !in Clean(s) && Trim(Clean(s)) == Clean(s)
  {
    CleanLine(s);
    DefusedSafe(OneLine(s));
    OneLineSame(Clean(s));
  }

  // ----- the frame -----

  const SILENCE_FIRST: string := "Silence is a valid reply" + (" to the messages below;" + " answer only if useful.")
  const HEADER: string := "The block below is" + (" message data relayed" + " by attend.")
  const PREAMBLE: string := "attend_reply threads" + (" (re: ~id); attend_send" + " starts a topic.")
  const TAG := "attend-peer-messages>"
  const OPEN: string := "<" + TAG
  const CLOSE: string := "</" + TAG

  function Cleaned(lines: seq<string>): (out: seq<string>)
    ensures |out| == |lines| && forall i | 0 <= i < |lines| :: out[i] == Clean(lines[i])
  {
    seq(|lines|, i requires 0 <= i < |lines| => Clean(lines[i]))
  }

  function Inner(lines: seq<string>): string { Join(Cleaned(lines), '\n') }

  /** What stands before and behind the tags. */
  const BEFORE: string := SILENCE_FIRST + "\n" + HEADER + "\n"

  function Behind(full: bool): string { if full then "\n" + PREAMBLE else "" }

  /** A text between the tags, each on a line of its own. */
  function Wrapped(before: string, open: string, inner: string, close: string, behind: string): string
  {
    before + (open + (['\n'] + inner + ['\n'] + (close + behind)))
  }

  /** `frameInbound`. */
  function FrameInbound(lines: seq<string>, full: bool): string
  {
    Wrapped(BEFORE, OPEN, Inner(lines), CLOSE, Behind(full))
  }

  /** The place of the last occurrence. */
  function FindLast(s: string, pat: string): (r: Option<nat>)
    ensures r.Some? ==> r.value + |pat| <= |s| && pat <= s[r.value..]
  {
    if s == "" then (if pat == "" then Some(0) else None) else
    match FindLast(s[1..], pat)
    case Some(i) => Some(i + 1)
    case None => if pat <= s then Some(0) else None
  }

  function Trimmed(lines: seq<string>): (out: seq<string>)
    ensures |out| == |lines| && forall i | 0 <= i < |lines| :: out[i] == Trim(lines[i])
  {
    seq(|lines|, i requires 0 <= i < |lines| => Trim(lines[i]))
  }

  function NonEmpty(lines: seq<string>): (kept: seq<string>)
    ensures forall l :: l in kept <==> l in lines && l != ""
  {
    if lines == [] then [] else (if lines[0] == "" then [] else [lines[0]]) + NonEmpty(lines[1..])
  }

  /** `peerLines`. */
  function PeerLines(text: string): Option<seq<string>>
  {
    var a, b := Find(text, OPEN), FindLast(text, CLOSE);
    if a.None? || b.None? || b.value < a.value then None
    else if b.value < a.value + |OPEN| then Some(NonEmpty(Trimmed(Split("", '\n'))))
    else Some(NonEmpty(Trimmed(Split(text[a.value + |OPEN|..b.value], '\n'))))
  }

  // ----- the frame holds one block -----

  predicate Bare(s: string) { '<' !in s }

  predicate IsOpen(o: string) { AttendAt(o, 1) && o[0] == '<' && Bare(o[1..]) }

  predicate IsClose(c: string) { |c| > 1 && c[0] == '<' && c[1] == '/' && Bare(c[1..]) }

  lemma {:induction false} Tags()
    ensures IsOpen(OPEN) && IsClose(CLOSE)
  {
    assert Bare(TAG) && OPEN[1..] == TAG;
    assert CLOSE[1..] == "/" + TAG;
    BareConcat("/", TAG);
  }

  lemma {:induction false} BareConcat(a: string, b: string)
    requires Bare(a) && Bare(b)
    ensures Bare(a + b)
  {
  }

  lemma {:induction false} BareSilence()
    ensures Bare(SILENCE_FIRST)
  {
    BareConcat(" to the messages below;", " answer only if useful.");
    BareConcat("Silence is a valid reply", " to the messages below;" + " answer only if useful.");
  }

  lemma {:induction false} BareHeader()
    ensures Bare(HEADER)
  {
    BareConcat(" message data relayed", " by attend.");
    BareConcat("The block below is", " message data relayed" + " by attend.");
  }

  lemma {:induction false} BarePreamble()
    ensures Bare(PREAMBLE)
  {
    BareConcat(" (re: ~id); attend_send", " starts a topic.");
    BareConcat("attend_reply threads", " (re: ~id); attend_send" + " starts a topic.");
  }

  lemma {:induction false} BareLines(a: string, b: string, c: string)
    requires Bare(a) && Bare(b) && Bare(c)
    ensures Bare(a + "\n" + b + "\n") && Bare("\n" + c)
  {
  }

  lemma {:induction false} BareAround(full: bool)
    ensures Bare(BEFORE) && Bare(Behind(full))
  {
    BareSilence();
    BareHeader();
    BarePreamble();
    BareLines(SILENCE_FIRST, HEADER, PREAMBLE);
  }

  /** The wrapped text, place by place: where the text between starts, and where the closing tag does. */
  lemma {:induction false} WrappedAt(before: string, open: string, inner: string, close: string, behind: string,
                                     w: string, q: nat, p: nat)
    requires w == Wrapped(before, open, inner, close, behind)
    requires q == |before| + |open| + 1 && p == q + |inner| + 1
    ensures |w| == p + |close| + |behind|
    ensures Spells(w, 0, before) && Spells(w, |before|, open) && Spells(w, q, inner)
    ensures Spells(w, p, close) && Spells(w, p + |close|, behind)
    ensures w[q - 1] == '\n' && w[p - 1] == '\n'
    ensures w[q - 1..p] == ['\n'] + inner + ['\n']
    ensures open <= w[|before|..] && close <= w[p..]
  {
    var tail := ['\n'] + inner + ['\n'];
    assert w == before + open + tail + close + behind;
    assert w[|before|..] == open + (tail + (close + behind));
    assert w[p..] == close + behind;
  }

  /** The text at `q` ends the whole, or its line. */
  predicate Ends(w: string, q: nat, inner: string)
  {
    Spells(w, q, inner) && (q + |inner| < |w| ==> w[q + |inner|] == '\n')
  }

  /** No tag starts inside a safe text that the end or a newline follows. */
  lemma {:induction false} NoTagInside(w: string, q: nat, inner: string, i: nat)
    requires Ends(w, q, inner) && Safe(inner) && q <= i < q + |inner| && w[i] == '<'
    ensures Guarded(w, i)
  {
    var k: nat := i - q;
    assert inner[k] == '<';
    assert Guarded(inner, k);
    SkipInside(w, q, inner, k + 1);
    AttendInside(w, q, inner, SkipSpaces(inner, k + 1));
  }

  lemma {:induction false} SkipInside(w: string, q: nat, inner: string, k: nat)
    requires Spells(w, q, inner) && k <= |inner| && SkipSpaces(inner, k) < |inner|
    ensures SkipSpaces(w, q + k) == q + SkipSpaces(inner, k)
    decreases |inner| - k
  {
    assert w[q + k] == inner[k];
    if inner[k] == ' ' { SkipInside(w, q, inner, k + 1); }
  }

  lemma {:induction false} AttendInside(w: string, q: nat, inner: string, k: nat)
    requires Ends(w, q, inner) && k < |inner|
    ensures AttendAt(w, q + k) ==> AttendAt(inner, k)
  {
  }

  /** Where a `<` can be. */
  lemma {:induction false} AngleAt(before: string, open: string, inner: string, close: string, behind: string,
                                   w: string, q: nat, p: nat, i: nat)
    requires w == Wrapped(before, open, inner, close, behind)
    requires q == |before| + |open| + 1 && p == q + |inner| + 1
    requires IsOpen(open) && IsClose(close) && Bare(before) && Bare(behind) && i < |w| && w[i] == '<'
    ensures i == |before| || i == p || q <= i < q + |inner|
  {
    WrappedAt(before, open, inner, close, behind, w, q, p);
    assert forall k | 1 <= k < |open| :: open[1..][k - 1] == open[k];
    assert forall k | 1 <= k < |close| :: close[1..][k - 1] == close[k];
  }

  /** The opening tag is nowhere else, and neither is the closing one. */
  lemma {:induction false} TagOnce(before: string, open: string, inner: string, close: string, behind: string,
                                   w: string, q: nat, p: nat, i: nat)
    requires w == Wrapped(before, open, inner, close, behind)
    requires q == |before| + |open| + 1 && p == q + |inner| + 1
    requires IsOpen(open) && IsClose(close) && Bare(before) && Bare(behind) && Safe(inner) && i <= |w|
    ensures open <= w[i..] <==> i == |before|
    ensures close <= w[i..] <==> i == p
    ensures i < |w| && w[i] == '<' ==> i == |before| || i == p || Guarded(w, i)
  {
    WrappedAt(before, open, inner, close, behind, w, q, p);
    if i < |w| && w[i] == '<' {
      AngleAt(before, open, inner, close, behind, w, q, p, i);
      if q <= i < q + |inner| { NoTagInside(w, q, inner, i); }
    }
    if open <= w[i..] {
      TagStart(w, i, open);
    }
    if close <= w[i..] {
      assert w[i] == close[0] && w[i + 1] == close[1];
    }
  }

  lemma {:induction false} TagStart(w: string, i: nat, open: string)
    requires IsOpen(open) && i <= |w| && open <= w[i..]
    ensures i + 1 < |w| && w[i + 1] != ' ' && AttendAt(w, i + 1)
  {
    assert forall k | 0 <= k < |open| :: w[i + k] == w[i..][k] == open[k];
  }

  lemma {:induction false} SafeConcat(a: string, b: string)
    requires Safe(a) && Safe(b)
    ensures Safe(a + ['\n'] + b)
  {
    var n := |a| + 1;
    var s := a + ['\n'] + b;
    assert Ends(s, 0, a) && Ends(s, n, b);
    forall i | 0 <= i < |s| && s[i] == '<' ensures Guarded(s, i) {
      if i < |a| {
        NoTagInside(s, 0, a, i);
      } else {
        NoTagInside(s, n, b, i);
      }
    }
  }

  lemma {:induction false} SafeJoin(lines: seq<string>)
    requires forall i | 0 <= i < |lines| :: Safe(lines[i])
    ensures Safe(Join(lines, '\n'))
  {
    if |lines| > 1 {
      SafeJoin(lines[1..]);
      SafeConcat(lines[0], Join(lines[1..], '\n'));
    }
  }

  lemma {:induction false} InnerSafe(lines: seq<string>)
    ensures Safe(Inner(lines))
  {
    forall i | 0 <= i < |lines| ensures Safe(Cleaned(lines)[i]) { CleanIs(lines[i]); }
    SafeJoin(Cleaned(lines));
  }

  /** Where the block's tags stand in a framed delivery. */
  function OpensAt(): nat { |BEFORE| }

  function ClosesAt(lines: seq<string>): nat { |BEFORE| + |OPEN| + |Inner(lines)| + 2 }

  /** A framed delivery has one opening and one closing tag, whatever the lines hold, and nothing else in it
      starts one in any spacing or case. */
  lemma {:induction false} OneBlock(lines: seq<string>, full: bool, i: nat)
    requires i <= |FrameInbound(lines, full)|
    ensures OPEN <= FrameInbound(lines, full)[i..] <==> i == OpensAt()
    ensures CLOSE <= FrameInbound(lines, full)[i..] <==> i == ClosesAt(lines)
    ensures i < |FrameInbound(lines, full)| && FrameInbound(lines, full)[i] == '<' ==>
              i == OpensAt() || i == ClosesAt(lines) || Guarded(FrameInbound(lines, full), i)
  {
    Tags();
    BareAround(full);
    InnerSafe(lines);
    TagOnce(BEFORE, OPEN, Inner(lines), CLOSE, Behind(full), FrameInbound(lines, full),
            |BEFORE| + |OPEN| + 1, ClosesAt(lines), i);
  }

  lemma {:induction false} FindLastAt(s: string, pat: string, n: nat)
    requires n <= |s| && pat <= s[n..] && pat != ""
    requires forall i | n < i <= |s| :: !(pat <= s[i..])
    ensures FindLast(s, pat) == Some(n)
    decreases |s|
  {
    var t := s[1..];
    if n == 0 {
      assert s[0..] == s;
      forall i | 0 <= i <= |t| ensures !(pat <= t[i..]) { assert t[i..] == s[i + 1..]; }
      FindLastNone(t, pat);
    } else {
      assert t[n - 1..] == s[n..];
      forall i | n - 1 < i <= |t| ensures !(pat <= t[i..]) { assert t[i..] == s[i + 1..]; }
      FindLastAt(t, pat, n - 1);
    }
  }

  lemma {:induction false} FindLastNone(s: string, pat: string)
    requires pat != "" && forall i | 0 <= i <= |s| :: !(pat <= s[i..])
    ensures FindLast(s, pat) == None
    decreases |s|
  {
    if s != "" {
      var t := s[1..];
      assert s[0..] == s;
      forall i | 0 <= i <= |t| ensures !(pat <= t[i..]) { assert t[i..] == s[i + 1..]; }
      FindLastNone(t, pat);
    }
  }

  // ----- reading the lines back -----

  lemma {:induction false} NonEmptyEnds(lines: seq<string>)
    ensures NonEmpty([""] + (lines + [""])) == NonEmpty(lines)
  {
    assert ([""] + (lines + [""]))[1..] == lines + [""];
    NonEmptyLast(lines);
  }

  lemma {:induction false} NonEmptyLast(lines: seq<string>)
    ensures NonEmpty(lines + [""]) == NonEmpty(lines)
    decreases |lines|
  {
    if lines == [] {
      assert NonEmpty([""]) == NonEmpty([""][1..]);
    } else {
      assert (lines + [""])[1..] == lines[1..] + [""];
      NonEmptyLast(lines[1..]);
    }
  }

  lemma {:induction false} SplitInner(inner: string)
    ensures Split(['\n'] + inner + ['\n'], '\n') == [""] + (Split(inner, '\n') + [""])
  {
    SplitConcat(inner, '\n', "");
    SplitConcat("", '\n', inner + ['\n'] + "");
    assert "" + ['\n'] + (inner + ['\n'] + "") == ['\n'] + inner + ['\n'];
  }

  lemma {:induction false} TrimmedEnds(cleaned: seq<string>)
    requires forall i | 0 <= i < |cleaned| :: Trim(cleaned[i]) == cleaned[i]
    ensures NonEmpty(Trimmed([""] + (cleaned + [""]))) == NonEmpty(cleaned)
  {
    assert Trimmed([""] + (cleaned + [""])) == [""] + (cleaned + [""]);
    NonEmptyEnds(cleaned);
  }

  /** The text between the tags splits into the lines, with nothing before the first and behind the last. */
  lemma {:induction false} BlockSplit(lines: seq<string>)
    ensures NonEmpty(Trimmed(Split(['\n'] + Inner(lines) + ['\n'], '\n'))) == NonEmpty(Cleaned(lines))
  {
    var cleaned := Cleaned(lines);
    forall i | 0 <= i < |lines| ensures '\n' !in cleaned[i] && Trim(cleaned[i]) == cleaned[i] { CleanIs(lines[i]); }
    SplitInner(Inner(lines));
    if lines == [] {
      assert [""] + ([""] + [""]) == ["", "", ""];
      Blank();
    } else {
      SplitJoin(cleaned, '\n');
      TrimmedEnds(cleaned);
    }
  }

  lemma {:induction false} Blank()
    ensures Trimmed(["", "", ""]) == ["", "", ""] && NonEmpty(["", "", ""]) == []
  {
    assert ["", "", ""][1..] == ["", ""] && ["", ""][1..] == [""] && [""][1..] == [];
  }

  lemma {:induction false} ReadBetween(text: string, a: nat, from: nat, b: nat, block: string)
    requires Find(text, OPEN) == Some(a) && FindLast(text, CLOSE) == Some(b) && from == a + |OPEN|
    requires from <= b <= |text| && block == text[from..b]
    ensures PeerLines(text) == Some(NonEmpty(Trimmed(Split(block, '\n'))))
  {
  }

  lemma {:induction false} TagsFound(lines: seq<string>, full: bool, text: string)
    requires text == FrameInbound(lines, full)
    ensures Find(text, OPEN) == Some(OpensAt()) && FindLast(text, CLOSE) == Some(ClosesAt(lines))
  {
    var a, b := OpensAt(), ClosesAt(lines);
    forall i: nat | i <= |text| ensures (OPEN <= text[i..] <==> i == a) && (CLOSE <= text[i..] <==> i == b) {
      OneBlock(lines, full, i);
    }
    BlockBetween(lines, full, text, a + |OPEN|, b);
    FindAt(text, OPEN, a);
    FindLastAt(text, CLOSE, b);
  }

  lemma {:induction false} BlockBetween(lines: seq<string>, full: bool, text: string, from: nat, b: nat)
    requires text == FrameInbound(lines, full) && from == OpensAt() + |OPEN| && b == ClosesAt(lines)
    ensures from <= b <= |text| && text[from..b] == ['\n'] + Inner(lines) + ['\n']
  {
    WrappedAt(BEFORE, OPEN, Inner(lines), CLOSE, Behind(full), text, from + 1, b);
  }

  /** The lines of a framed delivery are read back as they were framed: one line each, defused, the
      empty ones left out. */
  lemma {:induction false} LinesReadBack(lines: seq<string>, full: bool)
    ensures PeerLines(FrameInbound(lines, full)) == Some(NonEmpty(Cleaned(lines)))
  {
    var text, block := FrameInbound(lines, full), ['\n'] + Inner(lines) + ['\n'];
    var a, b := OpensAt(), ClosesAt(lines);
    var from := a + |OPEN|;
    TagsFound(lines, full, text);
    BlockBetween(lines, full, text, from, b);
    ReadBetween(text, a, from, b, block);
    BlockSplit(lines);
  }

  // ----- the lines of a frame -----

  /** A line as framed is the text's words with single spaces between, and only a `<` that may not stay changed. */
  lemma {:induction false} CleanExact(s: string, i: nat)
    ensures |Clean(s)| == |Join(Words(Gap, s), ' ')|
    ensures i < |Clean(s)| ==> var j := Join(Words(Gap, s), ' ');
              Clean(s)[i] == if j[i] == '<' && !MayStay(j, i) then '\U{2039}' else j[i]
  {
    OneLineWords(s);
    if i < |Clean(s)| { DefuseExact(OneLine(s), i); }
  }

  lemma {:induction false} SomeWord(gap: char -> bool, s: string)
    ensures Words(gap, s) == [] <==> forall c | c in s :: gap(c)
    decreases |s|
  {
    if s != "" {
      assert s == [s[0]] + s[1..];
      SomeWord(gap, s[1..]);
    }
  }

  /** Nothing is left of a line exactly when all of it is gaps. */
  lemma {:induction false} CleanEmptyIff(s: string)
    ensures Clean(s) == "" <==> forall c | c in s :: Gap(c)
  {
    OneLineWords(s);
    SomeWord(Gap, s);
    var ws := Words(Gap, s);
    if ws != [] {
      assert ws[0] != "";
      NoEmptyJoin(ws);
    }
  }

  lemma {:induction false} NonEmptyKeeps(lines: seq<string>)
    requires forall l | l in lines :: l != ""
    ensures NonEmpty(lines) == lines
  {
    if lines != [] {
      assert lines == [lines[0]] + lines[1..] && lines[0] in lines;
      assert forall l | l in lines[1..] :: l in lines;
      NonEmptyKeeps(lines[1..]);
    }
  }

  lemma {:induction false} NonEmptyConcat(a: seq<string>, b: seq<string>)
    ensures NonEmpty(a + b) == NonEmpty(a) + NonEmpty(b)
  {
    if a == [] {
      assert a + b == b;
    } else {
      assert (a + b)[1..] == a[1..] + b;
      NonEmptyConcat(a[1..], b);
    }
  }

  /** Every line with anything in it is read back, in order. */
  lemma {:induction false} AllLinesBack(lines: seq<string>, full: bool)
    requires forall i | 0 <= i < |lines| :: exists c :: c in lines[i] && !Gap(c)
    ensures PeerLines(FrameInbound(lines, full)) == Some(Cleaned(lines))
  {
    LinesReadBack(lines, full);
    forall l | l in Cleaned(lines) ensures l != "" {
      var i :| 0 <= i < |lines| && Cleaned(lines)[i] == l;
      CleanEmptyIff(lines[i]);
    }
    NonEmptyKeeps(Cleaned(lines));
  }

  lemma {:induction false} NoNewline(a: string, b: string)
    requires '\n' !in a && '\n' !in b
    ensures '\n' !in a + b
  {
  }

  lemma {:induction false} SilenceLine()
    ensures '\n' !in SILENCE_FIRST
  {
    NoNewline(" to the messages below;", " answer only if useful.");
    NoNewline("Silence is a valid reply", " to the messages below;" + " answer only if useful.");
  }

  lemma {:induction false} HeaderLine()
    ensures '\n' !in HEADER
  {
    NoNewline(" message data relayed", " by attend.");
    NoNewline("The block below is", " message data relayed" + " by attend.");
  }

  lemma {:induction false} PreambleLine()
    ensures '\n' !in PREAMBLE
  {
    NoNewline(" (re: ~id); attend_send", " starts a topic.");
    NoNewline("attend_reply threads", " (re: ~id); attend_send" + " starts a topic.");
  }

  lemma {:induction false} TagLines()
    ensures '\n' !in OPEN && '\n' !in CLOSE
  {
    assert '\n' !in TAG;
    NoNewline("<", TAG);
    NoNewline("</", TAG);
  }

  lemma {:induction false} SplitBehind(a: string, rest: string)
    requires '\n' !in a
    ensures Split(a + ['\n'] + rest, '\n') == [a] + Split(rest, '\n')
  {
    SplitConcat(a, '\n', rest);
    SplitPlain(a, '\n');
  }

  /** The frame's lines: the silence line, the header, the opening tag, each line as framed, the closing tag, and
      in full the preamble. */
  lemma {:induction false} FrameLines(lines: seq<string>, full: bool)
    ensures Split(FrameInbound(lines, full), '\n')
         == [SILENCE_FIRST] + ([HEADER] + ([OPEN]
            + ((if lines == [] then [""] else Cleaned(lines)) + ([CLOSE] + if full then [PREAMBLE] else []))))
  {
    SilenceLine();
    HeaderLine();
    PreambleLine();
    TagLines();
    var inner, tail := Inner(lines), CLOSE + Behind(full);
    TailLines(full);
    InnerLines(lines);
    SplitConcat(inner, '\n', tail);
    SplitBehind(OPEN, inner + ['\n'] + tail);
    SplitBehind(HEADER, OPEN + ['\n'] + (inner + ['\n'] + tail));
    SplitBehind(SILENCE_FIRST, HEADER + ['\n'] + (OPEN + ['\n'] + (inner + ['\n'] + tail)));
    FrameText(SILENCE_FIRST, HEADER, OPEN, inner, tail, FrameInbound(lines, full), CLOSE, Behind(full));
  }

  lemma {:induction false} FrameText(a: string, b: string, open: string, inner: string, tail: string, w: string,
                                     close: string, behind: string)
    requires w == Wrapped(a + "\n" + b + "\n", open, inner, close, behind) && tail == close + behind
    ensures w == a + ['\n'] + (b + ['\n'] + (open + ['\n'] + (inner + ['\n'] + tail)))
  {
  }

  lemma {:induction false} TailLines(full: bool)
    requires '\n' !in CLOSE && '\n' !in PREAMBLE
    ensures Split(CLOSE + Behind(full), '\n') == [CLOSE] + if full then [PREAMBLE] else []
  {
    if full {
      SplitBehind(CLOSE, PREAMBLE);
      SplitPlain(PREAMBLE, '\n');
      assert CLOSE + Behind(full) == CLOSE + ['\n'] + PREAMBLE;
    } else {
      SplitPlain(CLOSE, '\n');
      assert CLOSE + Behind(full) == CLOSE;
    }
  }

  lemma {:induction false} InnerLines(lines: seq<string>)
    ensures Split(Inner(lines), '\n') == if lines == [] then [""] else Cleaned(lines)
  {
    if lines != [] {
      forall p | p in Cleaned(lines) ensures '\n' !in p {
        var i :| 0 <= i < |lines| && Cleaned(lines)[i] == p;
        CleanIs(lines[i]);
      }
      SplitJoin(Cleaned(lines), '\n');
    }
  }
}
