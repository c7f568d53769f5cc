/** Visible width of styled text (`width.rs`): an escape sequence runs from ESC to the first letter and
    counts for nothing. `reset` stands for the theme's reset sequence. */
module Width {
  import opened Basics

  const ESC: char := '\U{1B}'
  const ELLIPSIS: char := '\U{2026}'

  /** A visible character, read outside (`!inside`) a sequence. */
  predicate Shown(c: char, inside: bool) { !inside && c != ESC }

  /** Whether the next character is read inside a sequence. */
  predicate Next(c: char, inside: bool) { if inside then !IsAsciiLetter(c) else c == ESC }

  function Vis(s: string, inside: bool): nat
  {
    if s == "" then 0 else (if Shown(s[0], inside) then 1 else 0) + Vis(s[1..], Next(s[0], inside))
  }

  /** Whether the text ends inside a sequence. */
  predicate Ends(s: string, inside: bool)
  {
    if s == "" then inside else Ends(s[1..], Next(s[0], inside))
  }

  function Take(s: string, max: nat, inside: bool): (string, bool)
    decreases |s|
  {
    if s == "" then ("", false)
    else if !Shown(s[0], inside) then
      var t := Take(s[1..], max, Next(s[0], inside));
      ([s[0]] + t.0, t.1)
    else if max == 0 then ("", true)
    else
      var t := Take(s[1..], max - 1, Next(s[0], inside));
      ([s[0]] + t.0, t.1)
  }

  /** `visible_len`. */
  method VisibleLen(s: string) returns (len: nat)
    ensures len == Vis(s, false)
  {
    len := 0;
    var inEscape := false;
    for i := 0 to |s|
      invariant len + Vis(s[i..], inEscape) == Vis(s, false)
    {
      var c := s[i];
      assert s[i..][1..] == s[i + 1..];
      if inEscape {
        if IsAsciiLetter(c) { inEscape := false; }
      } else if c == ESC {
        inEscape := true;
      } else {
        len := len + 1;
      }
    }
  }

  /** What is taken so far and what is still to take make up the whole. */
  ghost predicate Taking(s: string, max: nat, i: nat, result: string, visible: nat, inside: bool, whole: (string, bool))
  {
    && i <= |s| && visible <= max
    && var t := Take(s[i..], max - visible, inside); (result + t.0, t.1) == whole
  }

  lemma {:induction false} TakeStep(s: string, max: nat, i: nat, result: string, visible: nat, inside: bool,
                                    whole: (string, bool))
    requires i < |s| && Taking(s, max, i, result, visible, inside, whole)
    ensures Shown(s[i], inside) && visible == max ==> whole == (result, true)
    ensures Shown(s[i], inside) && visible < max ==>
      Taking(s, max, i + 1, result + [s[i]], visible + 1, Next(s[i], inside), whole)
    ensures !Shown(s[i], inside) ==> Taking(s, max, i + 1, result + [s[i]], visible, Next(s[i], inside), whole)
  {
    var rest, room := s[i..], max - visible;
    assert rest[0] == s[i] && rest[1..] == s[i + 1..];
    if !Shown(s[i], inside) {
      assert result + ([s[i]] + Take(rest[1..], room, Next(s[i], inside)).0)
          == (result + [s[i]]) + Take(rest[1..], room, Next(s[i], inside)).0;
    } else if room > 0 {
      var less := max - (visible + 1);
      assert less == room - 1;
      assert Take(rest, room, inside).0 == [s[i]] + Take(rest[1..], less, Next(s[i], inside)).0;
      assert result + ([s[i]] + Take(rest[1..], less, Next(s[i], inside)).0)
          == (result + [s[i]]) + Take(rest[1..], less, Next(s[i], inside)).0;
    } else {
      assert Take(rest, room, inside) == ("", true) && result + "" == result;
    }
  }

  /** `take_visible`. */
  method TakeVisible(s: string, max: nat) returns (result: string, cut: bool)
    ensures (result, cut) == Take(s, max, false)
  {
    result := "";
    var visible, inEscape := 0, false;
    ghost var whole := Take(s, max, false);
    assert s[0..] == s && result + whole.0 == whole.0;
    for i := 0 to |s|
      invariant Taking(s, max, i, result, visible, inEscape, whole)
    {
      var c := s[i];
      TakeStep(s, max, i, result, visible, inEscape, whole);
      if inEscape {
        result := result + [c];
        if IsAsciiLetter(c) { inEscape := false; }
      } else if c == ESC {
        inEscape := true;
        result := result + [c];
      } else {
        if visible >= max { return result, true; }
        result := result + [c];
        visible := visible + 1;
      }
    }
    cut := false;
    assert result + "" == result;
  }

  // ----- the algebra of widths -----

  lemma {:induction false} VisConcat(a: string, b: string, inside: bool)
    ensures Vis(a + b, inside) == Vis(a, inside) + Vis(b, Ends(a, inside))
    ensures Ends(a + b, inside) == Ends(b, Ends(a, inside))
    decreases |a|
  {
    if a == "" {
      assert a + b == b;
    } else {
      assert (a + b)[1..] == a[1..] + b;
      VisConcat(a[1..], b, Next(a[0], inside));
    }
  }

  /** A cut keeps exactly as much as there is room for, and stops outside a sequence. */
  lemma {:induction false} TakeKeeps(s: string, max: nat, inside: bool)
    ensures var (t, cut) := Take(s, max, inside);
            && cut == (Vis(s, inside) > max)
            && Vis(t, inside) == (if cut then max else Vis(s, inside))
            && (if cut then !Ends(t, inside) else t == s)
            && t <= s
    decreases |s|
  {
    if s != "" {
      var c, next := s[0], Next(s[0], inside);
      if !Shown(c, inside) {
        TakeKeeps(s[1..], max, next);
        assert ([c] + Take(s[1..], max, next).0)[1..] == Take(s[1..], max, next).0;
      } else if max > 0 {
        TakeKeeps(s[1..], max - 1, next);
        assert ([c] + Take(s[1..], max - 1, next).0)[1..] == Take(s[1..], max - 1, next).0;
      }
    }
  }

  /** One escape sequence that a letter ends. */
  predicate IsSequence(reset: string)
  {
    && |reset| >= 2 && reset[0] == ESC && IsAsciiLetter(reset[|reset| - 1])
    && forall i | 1 <= i < |reset| - 1 :: !IsAsciiLetter(reset[i])
  }

  /** The theme's reset, `ESC [0m`, is one. */
  lemma {:induction false} ResetIsSequence()
    ensures IsSequence([ESC, '[', '0', 'm'])
  {
  }

  lemma {:induction false} InsideSequence(s: string)
    requires s != "" && IsAsciiLetter(s[|s| - 1]) && forall i | 0 <= i < |s| - 1 :: !IsAsciiLetter(s[i])
    ensures Vis(s, true) == 0 && !Ends(s, true)
    decreases |s|
  {
    if |s| > 1 {
      InsideSequence(s[1..]);
    } else {
      assert s[1..] == "";
    }
  }

  lemma {:induction false} SequenceHidden(reset: string)
    requires IsSequence(reset)
    ensures Vis(reset, false) == 0 && !Ends(reset, false)
  {
    InsideSequence(reset[1..]);
  }

  function Spaces(n: nat): string { if n == 0 then "" else " " + Spaces(n - 1) }

  lemma {:induction false} SpacesShown(n: nat, inside: bool)
    ensures Vis(Spaces(n), inside) == (if inside then 0 else n) && Ends(Spaces(n), inside) == inside
  {
    if n > 0 {
      assert Spaces(n)[1..] == Spaces(n - 1);
      SpacesShown(n - 1, inside);
    }
  }

  // ----- the operations -----

  function Seal(s: string, reset: string): string { if ESC in s then s + reset else s }

  function Truncate(s: string, max: nat, reset: string): string
  {
    if Vis(s, false) <= max then s
    else if max <= 1 then [ELLIPSIS]
    else Seal(Take(s, max - 1, false).0 + [ELLIPSIS], reset)
  }

  function Clip(s: string, max: nat, reset: string): string
  {
    var (t, cut) := Take(s, max, false);
    if cut then Seal(t, reset) else t
  }

  function Pad(s: string, width: nat): string
  {
    if Vis(s, false) >= width then s else s + Spaces(width - Vis(s, false))
  }

  function Fit(s: string, width: nat, reset: string): string { Pad(Clip(s, width, reset), width) }

  /** A text that ends outside a sequence is as wide sealed, and stays so. */
  lemma {:induction false} SealHidden(s: string, reset: string)
    requires IsSequence(reset) && !Ends(s, false)
    ensures Vis(Seal(s, reset), false) == Vis(s, false) && !Ends(Seal(s, reset), false)
  {
    SequenceHidden(reset);
    VisConcat(s, reset, false);
  }

  /** A clip is as wide as the text or the edge, whichever is less; one that cuts ends outside a sequence. */
  lemma {:induction false} ClipWidth(s: string, max: nat, reset: string)
    requires IsSequence(reset)
    ensures Vis(Clip(s, max, reset), false) == if Vis(s, false) < max then Vis(s, false) else max
    ensures Vis(s, false) <= max ==> Clip(s, max, reset) == s
    ensures Vis(s, false) > max ==> !Ends(Clip(s, max, reset), false)
  {
    TakeKeeps(s, max, false);
    if Vis(s, false) > max {
      SealHidden(Take(s, max, false).0, reset);
    }
  }

  lemma {:induction false} OneShown(c: char)
    requires c != ESC
    ensures Vis([c], false) == 1 && !Ends([c], false)
  {
    assert [c][1..] == "";
  }

  /** A truncation that cuts is as wide as it may be, its ellipsis included, and ends outside a sequence. */
  lemma {:induction false} TruncateWidth(s: string, max: nat, reset: string)
    requires IsSequence(reset)
    ensures var t := Truncate(s, max, reset);
            if Vis(s, false) <= max then t == s
            else Vis(t, false) == (if max == 0 then 1 else max) && !Ends(t, false)
  {
    OneShown(ELLIPSIS);
    if Vis(s, false) > max > 1 {
      var head := Take(s, max - 1, false).0;
      TakeKeeps(s, max - 1, false);
      VisConcat(head, [ELLIPSIS], false);
      SealHidden(head + [ELLIPSIS], reset);
    }
  }

  /** It fits in the width it is given when that holds an ellipsis, or there is nothing to show. */
  lemma {:induction false} TruncateFits(s: string, max: nat, reset: string)
    requires IsSequence(reset)
    ensures Vis(Truncate(s, max, reset), false) <= max <==> max >= 1 || Vis(s, false) == 0
  {
    TruncateWidth(s, max, reset);
  }

  /** Padding is swallowed by a sequence that is still open, and counts otherwise. */
  lemma {:induction false} PadWidth(s: string, width: nat)
    ensures Vis(Pad(s, width), false)
         == if Vis(s, false) >= width || Ends(s, false) then Vis(s, false) else width
    ensures Ends(Pad(s, width), false) == Ends(s, false)
  {
    if Vis(s, false) < width {
      var n := width - Vis(s, false);
      VisConcat(s, Spaces(n), false);
      SpacesShown(n, Ends(s, false));
    }
  }

  /** A fit is exactly the width, unless the text is too short and ends inside a sequence. */
  lemma {:induction false} FitExact(s: string, width: nat, reset: string)
    requires IsSequence(reset)
    ensures Vis(Fit(s, width, reset), false) == width <==> Vis(s, false) >= width || !Ends(s, false)
  {
    ClipWidth(s, width, reset);
    PadWidth(Clip(s, width, reset), width);
  }

  // ----- how a cut text ends -----

  /** A cut stops just before a character that would be shown. */
  lemma {:induction false} TakeStops(s: string, max: nat, inside: bool)
    requires Take(s, max, inside).1
    ensures var t := Take(s, max, inside).0;
            |t| < |s| && t == s[..|t|] && s[|t|] != ESC && !Ends(t, inside) && Vis(t, inside) == max
    decreases |s|
  {
    TakeKeeps(s, max, inside);
    var c, next := s[0], Next(s[0], inside);
    if !Shown(c, inside) {
      TakeStops(s[1..], max, next);
    } else if max > 0 {
      TakeStops(s[1..], max - 1, next);
    }
  }

  /** Where a text is cut at `n` shown characters: just before the next one. */
  predicate CutAt(s: string, at: nat, n: nat)
  {
    at < |s| && Vis(s[..at], false) == n && !Ends(s[..at], false) && s[at] != ESC
  }

  /** A clip that cuts is what is before the cut, and the reset when that holds an escape. */
  lemma {:induction false} ClipSealed(s: string, max: nat, reset: string) returns (at: nat)
    requires Vis(s, false) > max
    ensures CutAt(s, at, max) && Clip(s, max, reset) == s[..at] + (if ESC in s[..at] then reset else "")
  {
    TakeKeeps(s, max, false);
    TakeStops(s, max, false);
    at := |Take(s, max, false).0|;
  }

  /** A truncation that cuts is what is before the cut, the ellipsis, and the reset when that holds an escape. */
  lemma {:induction false} TruncateSealed(s: string, max: nat, reset: string) returns (at: nat)
    requires Vis(s, false) > max > 1
    ensures CutAt(s, at, max - 1)
    ensures Truncate(s, max, reset) == s[..at] + [ELLIPSIS] + (if ESC in s[..at] then reset else "")
  {
    TakeKeeps(s, max - 1, false);
    TakeStops(s, max - 1, false);
    at := |Take(s, max - 1, false).0|;
    assert ESC in s[..at] + [ELLIPSIS] <==> ESC in s[..at];
  }

  // ----- what is shown -----

  /** The visible characters of a text. */
  function Text(s: string, inside: bool): (t: string)
    ensures |t| == Vis(s, inside)
  {
    if s == "" then "" else (if Shown(s[0], inside) then [s[0]] else "") + Text(s[1..], Next(s[0], inside))
  }

  lemma {:induction false} TextCons(c: char, s: string, inside: bool)
    ensures Text([c] + s, inside) == (if Shown(c, inside) then [c] else "") + Text(s, Next(c, inside))
  {
    assert ([c] + s)[1..] == s;
  }

  lemma {:induction false} Regrouped(a: string, b: string, c: string)
    ensures (a + b) + c == a + (b + c)
  {
  }

  lemma {:induction false} TextConcat(a: string, b: string, inside: bool)
    ensures Text(a + b, inside) == Text(a, inside) + Text(b, Ends(a, inside))
    decreases |a|
  {
    if a == "" {
      assert a + b == b;
    } else {
      var c, rest := a[0], a[1..];
      assert a == [c] + rest && a + b == [c] + (rest + b);
      TextCons(c, rest + b, inside);
      TextConcat(rest, b, Next(c, inside));
      TextCons(c, rest, inside);
      Regrouped(if Shown(c, inside) then [c] else "", Text(rest, Next(c, inside)), Text(b, Ends(a, inside)));
    }
  }

  /** What a cut shows is the first of what the text shows. */
  lemma {:induction false} TakeShows(s: string, max: nat, inside: bool)
    ensures Text(Take(s, max, inside).0, inside)
         == if Vis(s, inside) <= max then Text(s, inside) else Text(s, inside)[..max]
  {
    var t := Take(s, max, inside).0;
    TakeKeeps(s, max, inside);
    assert s == t + s[|t|..];
    TextConcat(t, s[|t|..], inside);
  }

  lemma {:induction false} SpacesText(n: nat)
    ensures Text(Spaces(n), false) == Spaces(n)
  {
    if n > 0 {
      assert Spaces(n)[1..] == Spaces(n - 1);
      SpacesText(n - 1);
    }
  }

  /** A sealed text shows what it showed. */
  lemma {:induction false} SealShows(s: string, reset: string)
    requires IsSequence(reset) && !Ends(s, false)
    ensures Text(Seal(s, reset), false) == Text(s, false)
  {
    SequenceHidden(reset);
    TextConcat(s, reset, false);
  }

  /** A clip shows the first characters of the text, as many as fit. */
  lemma {:induction false} ClipShows(s: string, max: nat, reset: string)
    requires IsSequence(reset)
    ensures Text(Clip(s, max, reset), false) == if Vis(s, false) <= max then Text(s, false) else Text(s, false)[..max]
  {
    TakeKeeps(s, max, false);
    TakeShows(s, max, false);
    if Vis(s, false) > max {
      SealShows(Take(s, max, false).0, reset);
    }
  }

  /** A truncation that cuts shows the first characters of the text and the ellipsis. */
  lemma {:induction false} TruncateShows(s: string, max: nat, reset: string)
    requires IsSequence(reset) && Vis(s, false) > max > 0
    ensures Text(Truncate(s, max, reset), false) == Text(s, false)[..max - 1] + [ELLIPSIS]
  {
    OneShownText(ELLIPSIS);
    if max > 1 {
      var head := Take(s, max - 1, false).0;
      TakeKeeps(s, max - 1, false);
      TakeShows(s, max - 1, false);
      OneShown(ELLIPSIS);
      VisConcat(head, [ELLIPSIS], false);
      TextConcat(head, [ELLIPSIS], false);
      SealShows(head + [ELLIPSIS], reset);
    } else {
      assert Text(s, false)[..0] + [ELLIPSIS] == [ELLIPSIS];
    }
  }

  lemma {:induction false} OneShownText(c: char)
    requires c != ESC
    ensures Text([c], false) == [c]
  {
    assert [c][1..] == "";
  }

  lemma {:induction false} PadShows(s: string, width: nat)
    requires !Ends(s, false) && Vis(s, false) < width
    ensures Text(Pad(s, width), false) == Text(s, false) + Spaces(width - Vis(s, false))
  {
    var n := width - Vis(s, false);
    TextConcat(s, Spaces(n), false);
    SpacesText(n);
  }

  /** A fit shows the clip and spaces up to the width. */
  lemma {:induction false} FitShows(s: string, width: nat, reset: string)
    requires IsSequence(reset) && !Ends(s, false)
    ensures Text(Fit(s, width, reset), false)
         == if Vis(s, false) >= width then Text(s, false)[..width] else Text(s, false) + Spaces(width - Vis(s, false))
  {
    var clip, text := Clip(s, width, reset), Text(s, false);
    ClipWidth(s, width, reset);
    ClipShows(s, width, reset);
    if Vis(s, false) < width {
      PadShows(s, width);
    } else {
      assert Pad(clip, width) == clip;
      assert |text| == width ==> text[..width] == text;
    }
  }
}
