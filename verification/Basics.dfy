/** Shared vocabulary: optional values and dotted text. */
module Basics {

  datatype Option<+T> = None | Some(value: T)

  /** The parts of `s` between separators; a text without one is its own single part. */
  function Split(s: string, sep: char): (parts: seq<string>)
    ensures |parts| > 0
    decreases |s|
  {
    if s == "" then [""]
    else if s[0] == sep then [""] + Split(s[1..], sep)
    else
      var rest := Split(s[1..], sep);
      [[s[0]] + rest[0]] + rest[1..]
  }

  /** The parts with one separator between each pair. */
  function Join(parts: seq<string>, sep: char): string
  {
    if |parts| == 0 then ""
    else if |parts| == 1 then parts[0]
    else parts[0] + [sep] + Join(parts[1..], sep)
  }

  lemma {:induction false} PrependText(c: char, head: string, sep: char, tail: string)
    ensures ([c] + head) + [sep] + tail == [c] + (head + [sep] + tail)
  {
  }

  /** A character before the first part is one before the joined text. */
  lemma {:induction false} JoinPrepend(c: char, parts: seq<string>, sep: char, more: seq<string>)
    requires parts != [] && more == [[c] + parts[0]] + parts[1..]
    ensures Join(more, sep) == [c] + Join(parts, sep)
  {
    if |parts| > 1 {
      assert more[1..] == parts[1..];
      PrependText(c, parts[0], sep, Join(parts[1..], sep));
    }
  }

  lemma {:induction false} JoinEmptyHead(parts: seq<string>, sep: char, more: seq<string>)
    requires parts != [] && more == [""] + parts
    ensures Join(more, sep) == [sep] + Join(parts, sep)
  {
    assert more[1..] == parts;
  }

  lemma {:induction false} JoinSplit(s: string, sep: char)
    ensures Join(Split(s, sep), sep) == s
    decreases |s|
  {
    if s != "" {
      JoinSplit(s[1..], sep);
      assert s == [s[0]] + s[1..];
      if s[0] == sep {
        JoinEmptyHead(Split(s[1..], sep), sep, Split(s, sep));
      } else {
        JoinPrepend(s[0], Split(s[1..], sep), sep, Split(s, sep));
      }
    }
  }

  lemma {:induction false} SplitPlain(s: string, sep: char)
    requires sep !in s
    ensures Split(s, sep) == [s]
    decreases |s|
  {
    if s == "" {
    } else {
      SplitPlain(s[1..], sep);
      assert s == [s[0]] + s[1..];
    }
  }

  lemma {:induction false} SplitCons(c: char, s: string, sep: char)
    ensures Split([c] + s, sep)
         == if c == sep then [""] + Split(s, sep) else [[c] + Split(s, sep)[0]] + Split(s, sep)[1..]
  {
    assert ([c] + s)[1..] == s;
  }

  /** A separator cuts the text in two, and each side splits on its own. */
  lemma {:induction false} SplitConcat(a: string, sep: char, b: string)
    ensures Split(a + [sep] + b, sep) == Split(a, sep) + Split(b, sep)
    decreases |a|
  {
    if a == "" {
      assert a + [sep] + b == [sep] + b;
      SplitCons(sep, b, sep);
    } else {
      var c, w := a[0], a[1..];
      var rest := w + [sep] + b;
      SplitConcat(w, sep, b);
      assert a == [c] + w && a + [sep] + b == [c] + rest;
      SplitCons(c, rest, sep);
      SplitCons(c, w, sep);
      PrependFirst(c, Split(w, sep), Split(b, sep));
    }
  }

  lemma {:induction false} PrependFirst(c: char, rest: seq<string>, tail: seq<string>)
    requires |rest| > 0
    ensures [[c] + (rest + tail)[0]] + (rest + tail)[1..] == ([[c] + rest[0]] + rest[1..]) + tail
    ensures [""] + (rest + tail) == ([""] + rest) + tail
  {
  }

  /** Runs of parts, each joined, with the separator between. */
  lemma {:induction false} JoinConcat(a: seq<string>, b: seq<string>, sep: char)
    requires a != [] && b != []
    ensures Join(a + b, sep) == Join(a, sep) + ([sep] + Join(b, sep))
  {
    if |a| == 1 {
      assert (a + b)[1..] == b;
    } else {
      assert (a + b)[1..] == a[1..] + b;
      JoinConcat(a[1..], b, sep);
      Reassociate(a[0], [sep], Join(a[1..], sep), [sep] + Join(b, sep));
    }
  }

  lemma {:induction false} Reassociate(a: string, b: string, c: string, d: string)
    ensures a + b + (c + d) == (a + b + c) + d
  {
  }

  lemma {:induction false} SplitParts(s: string, sep: char)
    ensures forall p :: p in Split(s, sep) ==> sep !in p
    decreases |s|
  {
    if s != "" {
      SplitParts(s[1..], sep);
    }
  }

  lemma {:induction false} SplitJoin(parts: seq<string>, sep: char)
    requires |parts| > 0
    requires forall p :: p in parts ==> sep !in p
    ensures Split(Join(parts, sep), sep) == parts
  {
    SplitPlain(parts[0], sep);
    if |parts| > 1 {
      SplitJoin(parts[1..], sep);
      SplitConcat(parts[0], sep, Join(parts[1..], sep));
      assert parts == [parts[0]] + parts[1..];
    }
  }

  // ----- decimal text -----

  function Digit(n: nat): char
    requires n < 10
  {
    "0123456789"[n]
  }

  function Decimal(n: nat): (s: string)
    ensures |s| > 0
  {
    if n < 10 then [Digit(n)] else Decimal(n / 10) + [Digit(n % 10)]
  }

  predicate IsDigit(c: char) { '0' <= c <= '9' }

  predicate AllDigits(s: string) { forall i | 0 <= i < |s| :: IsDigit(s[i]) }

  function DigitValue(c: char): nat
    requires IsDigit(c)
  {
    c as int - '0' as int
  }

  /** The number a run of digits writes; the empty run is zero. */
  function NumberOf(s: string): nat
    requires AllDigits(s)
  {
    if s == "" then 0 else NumberOf(s[..|s| - 1]) * 10 + DigitValue(s[|s| - 1])
  }

  lemma {:induction false} DigitRecovered(n: nat)
    requires n < 10
    ensures IsDigit(Digit(n)) && DigitValue(Digit(n)) == n
  {
  }

  lemma {:induction false} DecimalRecovered(n: nat)
    ensures AllDigits(Decimal(n)) && NumberOf(Decimal(n)) == n
  {
    DigitRecovered(n % 10);
    if n >= 10 {
      DecimalRecovered(n / 10);
      assert Decimal(n)[..|Decimal(n)| - 1] == Decimal(n / 10);
    } else {
      assert Decimal(n)[..0] == "";
    }
  }

  function Zeros(n: nat): string { if n == 0 then "" else "0" + Zeros(n - 1) }

  /** At least `width` digits, padded with zeros on the left. */
  function Padded(n: nat, width: nat): string
  {
    if |Decimal(n)| >= width then Decimal(n) else Zeros(width - |Decimal(n)|) + Decimal(n)
  }

  lemma {:induction false} LeadingZeros(n: nat, s: string)
    requires AllDigits(s)
    ensures AllDigits(Zeros(n) + s) && NumberOf(Zeros(n) + s) == NumberOf(s)
    decreases n
  {
    if n == 0 {
      assert Zeros(n) + s == s;
    } else {
      var t := Zeros(n - 1) + s;
      assert Zeros(n) + s == "0" + t;
      LeadingZeros(n - 1, s);
      LeadingZero(t);
    }
  }

  lemma {:induction false} LeadingZero(s: string)
    requires AllDigits(s)
    ensures AllDigits("0" + s) && NumberOf("0" + s) == NumberOf(s)
  {
    if s == "" {
      assert ("0" + s)[..0] == "";
    } else {
      LeadingZero(s[..|s| - 1]);
      assert ("0" + s)[..|s|] == "0" + s[..|s| - 1];
    }
  }

  lemma {:induction false} ZerosBefore(d: string, width: nat, s: string)
    requires AllDigits(d) && d != "" && s == if |d| >= width then d else Zeros(width - |d|) + d
    ensures AllDigits(s) && NumberOf(s) == NumberOf(d) && |s| > 0
  {
    if |d| < width { LeadingZeros(width - |d|, d); }
  }

  lemma {:induction false} PaddedRecovered(n: nat, width: nat)
    ensures AllDigits(Padded(n, width)) && NumberOf(Padded(n, width)) == n && |Padded(n, width)| > 0
  {
    DecimalRecovered(n);
    ZerosBefore(Decimal(n), width, Padded(n, width));
  }

  function PowerOfTen(n: nat): nat { if n == 0 then 1 else 10 * PowerOfTen(n - 1) }

  lemma {:induction false} DecimalWidth(n: nat, width: nat)
    requires width > 0 && n < PowerOfTen(width)
    ensures |Decimal(n)| <= width
  {
    if n >= 10 { DecimalWidth(n / 10, width - 1); }
  }

  lemma {:induction false} ZerosWidth(n: nat)
    ensures |Zeros(n)| == n
  {
    if n > 0 { ZerosWidth(n - 1); }
  }

  /** A number that fits is written in just that many digits. */
  lemma {:induction false} PaddedWidth(n: nat, width: nat)
    requires width > 0 && n < PowerOfTen(width)
    ensures |Padded(n, width)| == width
  {
    DecimalWidth(n, width);
    if |Decimal(n)| < width { ZerosWidth(width - |Decimal(n)|); }
  }

  // ----- classes of characters -----

  /** Unicode's White_Space property. */
  predicate IsWhitespace(c: char)
  {
    || '\t' <= c <= '\r' || c == ' ' || c == '\U{85}' || c == '\U{A0}' || c == '\U{1680}'
    || '\U{2000}' <= c <= '\U{200A}' || c == '\U{2028}' || c == '\U{2029}' || c == '\U{202F}'
    || c == '\U{205F}' || c == '\U{3000}'
  }

  /** Unicode's control characters (Cc). */
  predicate IsControl(c: char) { c < ' ' || '\U{7F}' <= c <= '\U{9F}' }

  predicate IsAsciiLetter(c: char) { 'a' <= c <= 'z' || 'A' <= c <= 'Z' }

  predicate IsAsciiAlnum(c: char) { IsAsciiLetter(c) || IsDigit(c) }

  // ----- the first separator -----

  function IndexOf(s: string, c: char): (i: nat)
    ensures i <= |s| && c !in s[..i] && (i < |s| ==> s[i] == c)
  {
    if s == "" || s[0] == c then 0 else
    var i := IndexOf(s[1..], c);
    assert s[..i + 1] == [s[0]] + s[1..][..i];
    i + 1
  }

  /** The text before and after the first `c`, if there is one. */
  function SplitOnce(s: string, c: char): (r: Option<(string, string)>)
    ensures r.Some? ==> s == r.value.0 + [c] + r.value.1 && c !in r.value.0
    ensures r.None? ==> c !in s
  {
    var i := IndexOf(s, c);
    if i == |s| then
      assert s[..i] == s;
      None
    else Some((s[..i], s[i + 1..]))
  }

  lemma {:induction false} SplitOnceAt(a: string, c: char, b: string)
    requires c !in a
    ensures SplitOnce(a + [c] + b, c) == Some((a, b))
  {
    var s := a + [c] + b;
    var i := IndexOf(s, c);
    assert s[|a|] == c;
    assert i <= |a| by {
      assert forall j | 0 <= j < i :: s[j] == s[..i][j] && s[..i][j] in s[..i];
    }
    assert i >= |a| by {
      assert forall j | 0 <= j < |a| :: s[j] == a[j] && a[j] in a;
    }
    assert s[..i] == a && s[i + 1..] == b;
  }

  // ----- the first occurrence of a text -----

  /** The place of the first occurrence. */
  function Find(s: string, pat: string): (r: Option<nat>)
    ensures r.Some? ==> r.value + |pat| <= |s| && pat <= s[r.value..]
  {
    if pat <= s then Some(0)
    else if s == "" then None
    else match Find(s[1..], pat) case None => None case Some(i) => Some(i + 1)
  }

  lemma {:induction false} FindAt(s: string, pat: string, n: nat)
    requires n <= |s| && pat <= s[n..] && pat != ""
    requires forall i | 0 <= i < n :: !(pat <= s[i..])
    ensures Find(s, pat) == Some(n)
    decreases n
  {
    assert s[0..] == s;
    if n > 0 {
      assert s[1..][n - 1..] == s[n..];
      forall i | 0 <= i < n - 1 ensures !(pat <= s[1..][i..]) {
        assert s[1..][i..] == s[i + 1..];
      }
      FindAt(s[1..], pat, n - 1);
    }
  }

  /** `word` stands at `at` in `s`. */
  predicate Spells(s: string, at: nat, word: string)
  {
    at + |word| <= |s| && forall n | at <= n < at + |word| :: s[n] == word[n - at]
  }

  // ----- stable sorting -----

  predicate Distinct<T(==)>(xs: seq<T>) { forall i, j | 0 <= i < j < |xs| :: xs[i] != xs[j] }

  lemma {:induction false} DistinctConcat<T>(a: seq<T>, b: seq<T>)
    requires Distinct(a) && Distinct(b) && forall x | x in b :: x !in a
    ensures Distinct(a + b)
  {
    var ab := a + b;
    forall i, j | 0 <= i < j < |ab| ensures ab[i] != ab[j] {
      if i < |a| <= j {
        assert ab[i] in a && ab[j] in b;
      }
    }
  }

  /** `ahead(x, y)` says that `x` may stand before `y`. */
  ghost predicate IsOrder<T(!new)>(ahead: (T, T) -> bool)
  {
    && (forall x, y :: ahead(x, y) || ahead(y, x))
    && (forall x, y, z :: ahead(x, y) && ahead(y, z) ==> ahead(x, z))
  }

  ghost predicate InOrder<T(!new)>(ahead: (T, T) -> bool, xs: seq<T>)
  {
    forall i, j | 0 <= i < j < |xs| :: ahead(xs[i], xs[j])
  }

  function Insert<T>(ahead: (T, T) -> bool, x: T, xs: seq<T>): seq<T>
  {
    if xs == [] || ahead(x, xs[0]) then [x] + xs else [xs[0]] + Insert(ahead, x, xs[1..])
  }

  /** The stable sort. */
  function SortBy<T>(ahead: (T, T) -> bool, xs: seq<T>): seq<T>
  {
    if xs == [] then [] else Insert(ahead, xs[0], SortBy(ahead, xs[1..]))
  }

  lemma {:induction false} InsertHolds<T>(ahead: (T, T) -> bool, x: T, xs: seq<T>)
    ensures forall y :: y in Insert(ahead, x, xs) <==> y == x || y in xs
    ensures |Insert(ahead, x, xs)| == |xs| + 1
    decreases |xs|
  {
    if xs != [] && !ahead(x, xs[0]) {
      InsertHolds(ahead, x, xs[1..]);
      assert xs == [xs[0]] + xs[1..];
    }
  }

  lemma {:induction false} InsertDistinct<T>(ahead: (T, T) -> bool, x: T, xs: seq<T>)
    requires Distinct(xs) && x !in xs
    ensures Distinct(Insert(ahead, x, xs))
    decreases |xs|
  {
    if xs != [] && !ahead(x, xs[0]) {
      InsertDistinct(ahead, x, xs[1..]);
      InsertHolds(ahead, x, xs[1..]);
      var rest := Insert(ahead, x, xs[1..]);
      forall j | 0 <= j < |rest| ensures rest[j] != xs[0] {
        assert rest[j] in rest;
      }
    }
  }

  lemma {:induction false} InsertInOrder<T(!new)>(ahead: (T, T) -> bool, x: T, xs: seq<T>)
    requires IsOrder(ahead) && InOrder(ahead, xs)
    ensures InOrder(ahead, Insert(ahead, x, xs))
    decreases |xs|
  {
    if xs == [] {
    } else if ahead(x, xs[0]) {
      forall j | 0 <= j < |xs| ensures ahead(x, xs[j]) {}
    } else {
      InsertInOrder(ahead, x, xs[1..]);
      InsertHolds(ahead, x, xs[1..]);
      var rest := Insert(ahead, x, xs[1..]);
      forall j | 0 <= j < |rest| ensures ahead(xs[0], rest[j]) {
        assert rest[j] in rest;
      }
    }
  }

  /** Sorting keeps the members, drops and repeats none, and puts them in order. */
  lemma {:induction false} SortKeeps<T>(ahead: (T, T) -> bool, xs: seq<T>)
    ensures forall y :: y in SortBy(ahead, xs) <==> y in xs
    ensures |SortBy(ahead, xs)| == |xs|
    ensures Distinct(xs) ==> Distinct(SortBy(ahead, xs))
    decreases |xs|
  {
    if xs != [] {
      SortKeeps(ahead, xs[1..]);
      InsertHolds(ahead, xs[0], SortBy(ahead, xs[1..]));
      assert xs == [xs[0]] + xs[1..];
      if Distinct(xs) {
        InsertDistinct(ahead, xs[0], SortBy(ahead, xs[1..]));
      }
    }
  }

  lemma {:induction false} SortOrders<T(!new)>(ahead: (T, T) -> bool, xs: seq<T>)
    requires IsOrder(ahead)
    ensures InOrder(ahead, SortBy(ahead, xs))
    decreases |xs|
  {
    if xs != [] {
      SortOrders(ahead, xs[1..]);
      InsertInOrder(ahead, xs[0], SortBy(ahead, xs[1..]));
    }
  }

  /** A member is put behind those it may not stand before. */
  lemma {:induction false} InsertShape<T>(ahead: (T, T) -> bool, x: T, xs: seq<T>) returns (p: nat)
    ensures p <= |xs| && Insert(ahead, x, xs) == xs[..p] + [x] + xs[p..]
    ensures forall q | 0 <= q < p :: !ahead(x, xs[q])
    decreases |xs|
  {
    if xs == [] || ahead(x, xs[0]) {
      p := 0;
    } else {
      var rest := InsertShape(ahead, x, xs[1..]);
      p := rest + 1;
      assert xs == [xs[0]] + xs[1..];
      assert xs[1..][..rest] == xs[1..p] && xs[1..][rest..] == xs[p..];
      assert forall q | 1 <= q < p :: xs[1..][q - 1] == xs[q];
    }
  }

  lemma {:induction false} Around<T>(xs: seq<T>, p: nat, x: T, out: seq<T>, i: nat)
    requires p <= |xs| && out == xs[..p] + [x] + xs[p..] && i < |out|
    ensures |out| == |xs| + 1 && out[i] == if i < p then xs[i] else if i == p then x else xs[i - 1]
  {
  }

  lemma {:induction false} SortedFrom<T>(ahead: (T, T) -> bool, xs: seq<T>, i: nat) returns (k: nat)
    requires i < |SortBy(ahead, xs)|
    ensures k < |xs| && xs[k] == SortBy(ahead, xs)[i]
    decreases |xs|
  {
    var rest := SortBy(ahead, xs[1..]);
    var p := InsertShape(ahead, xs[0], rest);
    Around(rest, p, xs[0], SortBy(ahead, xs), i);
    if i == p {
      k := 0;
    } else {
      var below := SortedFrom(ahead, xs[1..], if i < p then i else i - 1);
      k := below + 1;
    }
  }

  /** Sorting is stable: members that may stand either way keep their order. */
  lemma {:induction false} SortStable<T>(ahead: (T, T) -> bool, xs: seq<T>, i: nat, j: nat) returns (m: nat, n: nat)
    requires i < j < |SortBy(ahead, xs)| && ahead(SortBy(ahead, xs)[j], SortBy(ahead, xs)[i])
    ensures m < n < |xs| && xs[m] == SortBy(ahead, xs)[i] && xs[n] == SortBy(ahead, xs)[j]
    decreases |xs|
  {
    var x, rest, out := xs[0], SortBy(ahead, xs[1..]), SortBy(ahead, xs);
    var p := InsertShape(ahead, x, rest);
    Around(rest, p, x, out, i);
    Around(rest, p, x, out, j);
    if i == p {
      var k := SortedFrom(ahead, xs[1..], j - 1);
      m, n := 0, k + 1;
    } else {
      assert j != p;
      var i', j' := if i < p then i else i - 1, if j < p then j else j - 1;
      assert rest[i'] == out[i] && rest[j'] == out[j];
      var m', n' := SortStable(ahead, xs[1..], i', j');
      m, n := m' + 1, n' + 1;
    }
  }
}
