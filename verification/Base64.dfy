/** Standard padded base64 (images' `lib.ts`), section 4 of RFC 4648. */
module Base64 {
  import opened Basics

  type Byte = b: int | 0 <= b < 256

  function Symbol(v: nat): char
    requires v < 64
  {
    if v < 26 then ('A' as int + v) as char
    else if v < 52 then ('a' as int + v - 26) as char
    else if v < 62 then ('0' as int + v - 52) as char
    else if v == 62 then '+' else '/'
  }

  predicate IsSymbol(c: char) { IsAsciiAlnum(c) || c == '+' || c == '/' }

  function ValueAt(c: char): (v: nat)
    requires IsSymbol(c)
    ensures v < 64
  {
    if 'A' <= c <= 'Z' then c as int - 'A' as int
    else if 'a' <= c <= 'z' then c as int - 'a' as int + 26
    else if '0' <= c <= '9' then c as int - '0' as int + 52
    else if c == '+' then 62 else 63
  }

  lemma {:induction false} SymbolValue(v: nat)
    requires v < 64
    ensures IsSymbol(Symbol(v)) && ValueAt(Symbol(v)) == v
  {
  }

  /** Three bytes as one number, and its four digits. */
  function Word24(a: Byte, b: Byte, c: Byte): nat { a * 65_536 + b * 256 + c }

  function Digit64(n: nat, place: nat): (d: nat)
    requires place < 4
    ensures d < 64
  {
    if place == 0 then n / 262_144 % 64
    else if place == 1 then n / 4_096 % 64
    else if place == 2 then n / 64 % 64
    else n % 64
  }

  /** The text of one group; what is missing of it is padded. */
  function EncodeGroup(bytes: seq<Byte>): string
    requires 0 < |bytes|
  {
    var n := Word24(bytes[0], if |bytes| > 1 then bytes[1] else 0, if |bytes| > 2 then bytes[2] else 0);
    [Symbol(Digit64(n, 0)), Symbol(Digit64(n, 1))]
    + (if |bytes| > 1 then [Symbol(Digit64(n, 2))] else ['='])
    + (if |bytes| > 2 then [Symbol(Digit64(n, 3))] else ['='])
  }

  function Encode(bytes: seq<Byte>): string
    decreases |bytes|
  {
    if bytes == [] then ""
    else EncodeGroup(bytes) + Encode(if |bytes| > 3 then bytes[3..] else [])
  }

  function Rest(bytes: seq<Byte>, i: nat): seq<Byte> { if i < |bytes| then bytes[i..] else [] }

  /** The group at `i`, an index past the end reading as missing. */
  function GroupAt(bytes: seq<Byte>, i: nat): string
    requires i < |bytes|
  {
    var n := Word24(bytes[i], if i + 1 < |bytes| then bytes[i + 1] else 0, if i + 2 < |bytes| then bytes[i + 2] else 0);
    [Symbol(Digit64(n, 0)), Symbol(Digit64(n, 1))]
    + (if i + 1 < |bytes| then [Symbol(Digit64(n, 2))] else ['='])
    + (if i + 2 < |bytes| then [Symbol(Digit64(n, 3))] else ['='])
  }

  lemma {:induction false} EncodeNext(bytes: seq<Byte>, i: nat, next: nat)
    requires i < |bytes| && next == i + 3
    ensures Encode(Rest(bytes, i)) == GroupAt(bytes, i) + Encode(Rest(bytes, next))
  {
    var rest := bytes[i..];
    assert GroupAt(bytes, i) == EncodeGroup(rest);
    assert next < |bytes| ==> rest[3..] == bytes[next..];
  }

  /** `toBase64`. */
  method ToBase64(bytes: seq<Byte>) returns (out: string)
    ensures out == Encode(bytes)
  {
    out := "";
    var i := 0;
    assert Rest(bytes, 0) == bytes;
    while i < |bytes|
      invariant 0 <= i && out + Encode(Rest(bytes, i)) == Encode(bytes)
      decreases |bytes| - i
    {
      EncodeNext(bytes, i, i + 3);
      out := out + GroupAt(bytes, i);
      i := i + 3;
    }
  }

  // ----- decoding -----

  /** The symbols of a text; anything else is dropped, padding among it. */
  function Symbols(text: string): (clean: string)
    ensures forall i | 0 <= i < |clean| :: IsSymbol(clean[i])
  {
    if text == "" then "" else (if IsSymbol(text[0]) then [text[0]] else "") + Symbols(text[1..])
  }

  /** The number of one group of symbols; what is missing of it counts zero. */
  function GroupNumber(clean: string): nat
    requires clean != "" && forall i | 0 <= i < |clean| :: IsSymbol(clean[i])
  {
    ValueAt(clean[0]) * 262_144
    + (if |clean| > 1 then ValueAt(clean[1]) else 0) * 4_096
    + (if |clean| > 2 then ValueAt(clean[2]) else 0) * 64
    + (if |clean| > 3 then ValueAt(clean[3]) else 0)
  }

  /** The bytes of a number, most significant first: as many as the symbols hold. */
  function GroupBytes(n: nat, count: nat): seq<Byte>
  {
    (if count > 0 then [n / 65_536 % 256] else [])
    + (if count > 1 then [n / 256 % 256] else [])
    + (if count > 2 then [n % 256] else [])
  }

  /** How many bytes `k` symbols hold. */
  function Held(k: nat): nat { k * 3 / 4 }

  function Decode(clean: string): seq<Byte>
    requires forall i | 0 <= i < |clean| :: IsSymbol(clean[i])
    decreases |clean|
  {
    if clean == "" then []
    else if |clean| <= 4 then GroupBytes(GroupNumber(clean), Held(|clean|))
    else GroupBytes(GroupNumber(clean), 3) + Decode(clean[4..])
  }

  // ----- the round trip -----

  // division by a constant of a quotient and a remainder
  lemma {:induction false} By262144(q: nat, r: nat)
    requires r < 262_144
    ensures (q * 262_144 + r) / 262_144 == q
  {
  }

  lemma {:induction false} By4096(q: nat, r: nat)
    requires r < 4_096
    ensures (q * 4_096 + r) / 4_096 == q
  {
  }

  lemma {:induction false} By64(q: nat, r: nat)
    requires r < 64
    ensures (q * 64 + r) / 64 == q && (q * 64 + r) % 64 == r
  {
  }

  lemma {:induction false} By65536(q: nat, r: nat)
    requires r < 65_536
    ensures (q * 65_536 + r) / 65_536 == q
  {
  }

  lemma {:induction false} By256(q: nat, r: nat)
    requires r < 256
    ensures (q * 256 + r) / 256 == q && (q * 256 + r) % 256 == r
  {
  }

  /** The digits of a word, from its bytes. */
  lemma {:induction false} WordDigits(a: Byte, b: Byte, c: Byte, n: nat)
    requires n == Word24(a, b, c)
    ensures Digit64(n, 0) == a / 4 && Digit64(n, 1) == a % 4 * 16 + b / 16
    ensures Digit64(n, 2) == b % 16 * 4 + c / 64 && Digit64(n, 3) == c % 64
  {
    var d0, d1, d2, d3 := a / 4, a % 4 * 16 + b / 16, b % 16 * 4 + c / 64, c % 64;
    assert n == ((d0 * 64 + d1) * 64 + d2) * 64 + d3;
    Digits(d0, d1, d2, d3, n);
  }

  lemma {:induction false} Digits(d0: nat, d1: nat, d2: nat, d3: nat, n: nat)
    requires d0 < 64 && d1 < 64 && d2 < 64 && d3 < 64 && n == ((d0 * 64 + d1) * 64 + d2) * 64 + d3
    ensures Digit64(n, 0) == d0 && Digit64(n, 1) == d1 && Digit64(n, 2) == d2 && Digit64(n, 3) == d3
  {
    By262144(d0, d1 * 4_096 + d2 * 64 + d3);
    By4096(d0 * 64 + d1, d2 * 64 + d3);
    By64(d0, d1);
    By64((d0 * 64 + d1) * 64 + d2, d3);
    By64(d0 * 64 + d1, d2);
  }

  lemma {:induction false} WordBytes(a: Byte, b: Byte, c: Byte, n: nat)
    requires n == Word24(a, b, c)
    ensures n / 65_536 % 256 == a && n / 256 % 256 == b && n % 256 == c
  {
    By65536(a, b * 256 + c);
    By256(a * 256 + b, c);
    By256(a, b);
  }

  /** The digits of a group, with the zeros its padding stands for, make up its word. */
  lemma {:induction false} WordRebuilt(a: Byte, b: Byte, c: Byte, n: nat)
    requires n == Word24(a, b, c)
    ensures Digit64(n, 0) * 262_144 + Digit64(n, 1) * 4_096 + Digit64(n, 2) * 64 + Digit64(n, 3) == n
    ensures (c == 0 ==> Digit64(n, 3) == 0) && (b == 0 && c == 0 ==> Digit64(n, 2) == 0)
  {
    WordDigits(a, b, c, n);
  }

  /** What stands for the group's bytes, its padding left out. */
  function GroupSymbols(bytes: seq<Byte>): (clean: string)
    requires 0 < |bytes|
  {
    var n := Word24(bytes[0], if |bytes| > 1 then bytes[1] else 0, if |bytes| > 2 then bytes[2] else 0);
    [Symbol(Digit64(n, 0)), Symbol(Digit64(n, 1))]
    + (if |bytes| > 1 then [Symbol(Digit64(n, 2))] else "")
    + (if |bytes| > 2 then [Symbol(Digit64(n, 3))] else "")
  }

  lemma {:induction false} SymbolsConcat(a: string, b: string)
    ensures Symbols(a + b) == Symbols(a) + Symbols(b)
    decreases |a|
  {
    if a == "" {
      assert a + b == b;
    } else {
      assert (a + b)[1..] == a[1..] + b;
      SymbolsConcat(a[1..], b);
    }
  }

  lemma {:induction false} SymbolOne(c: char)
    ensures Symbols([c]) == if IsSymbol(c) then [c] else ""
  {
    assert [c][1..] == "";
  }

  lemma {:induction false} GroupClean(bytes: seq<Byte>)
    requires 0 < |bytes|
    ensures Symbols(EncodeGroup(bytes)) == GroupSymbols(bytes)
  {
    var n := Word24(bytes[0], if |bytes| > 1 then bytes[1] else 0, if |bytes| > 2 then bytes[2] else 0);
    var s2 := if |bytes| > 1 then Symbol(Digit64(n, 2)) else '=';
    var s3 := if |bytes| > 2 then Symbol(Digit64(n, 3)) else '=';
    GroupChars(Symbol(Digit64(n, 0)), Symbol(Digit64(n, 1)), s2, s3);
    SymbolValue(Digit64(n, 0));
    SymbolValue(Digit64(n, 1));
    SymbolValue(Digit64(n, 2));
    SymbolValue(Digit64(n, 3));
  }

  lemma {:induction false} GroupChars(a: char, b: char, c: char, d: char)
    requires IsSymbol(a) && IsSymbol(b)
    ensures Symbols([a, b] + [c] + [d])
         == [a, b] + (if IsSymbol(c) then [c] else "") + (if IsSymbol(d) then [d] else "")
  {
    FourSymbols(a, b, c, d);
    LeftToRight(a, b, [c], [d]);
    LeftToRight(a, b, Symbols([c]), Symbols([d]));
  }

  lemma {:induction false} LeftToRight(a: char, b: char, c: string, d: string)
    ensures [a, b] + c + d == [a] + ([b] + (c + d))
  {
  }

  lemma {:induction false} FourSymbols(a: char, b: char, c: char, d: char)
    ensures Symbols([a] + ([b] + ([c] + [d]))) == Symbols([a]) + (Symbols([b]) + (Symbols([c]) + Symbols([d])))
    ensures Symbols([a]) == (if IsSymbol(a) then [a] else "") && Symbols([b]) == (if IsSymbol(b) then [b] else "")
    ensures Symbols([c]) == (if IsSymbol(c) then [c] else "") && Symbols([d]) == (if IsSymbol(d) then [d] else "")
  {
    SymbolsConcat([c], [d]);
    SymbolsConcat([b], [c] + [d]);
    SymbolsConcat([a], [b] + ([c] + [d]));
    SymbolOne(a);
    SymbolOne(b);
    SymbolOne(c);
    SymbolOne(d);
  }

  /** The digits that stand in a group, and what follows them. */
  lemma {:induction false} GroupDigits(bytes: seq<Byte>, more: string, clean: string, n: nat)
    requires 0 < |bytes| && (more != "" ==> |bytes| > 2) && clean == GroupSymbols(bytes) + more
    requires forall i | 0 <= i < |more| :: IsSymbol(more[i])
    requires n == Word24(bytes[0], if |bytes| > 1 then bytes[1] else 0, if |bytes| > 2 then bytes[2] else 0)
    ensures if |bytes| == 1 then |clean| == 2 else if |bytes| == 2 then |clean| == 3 else |clean| >= 4
    ensures forall i | 0 <= i < |clean| :: IsSymbol(clean[i])
    ensures forall i | 0 <= i < |clean| && i < 4 :: ValueAt(clean[i]) == Digit64(n, i)
  {
    SymbolValue(Digit64(n, 0));
    SymbolValue(Digit64(n, 1));
    SymbolValue(Digit64(n, 2));
    SymbolValue(Digit64(n, 3));
  }

  lemma {:induction false} NumberBack(a: Byte, b: Byte, c: Byte, n: nat, clean: string)
    requires n == Word24(a, b, c) && |clean| >= 2 && forall i | 0 <= i < |clean| :: IsSymbol(clean[i])
    requires forall i | 0 <= i < |clean| && i < 4 :: ValueAt(clean[i]) == Digit64(n, i)
    requires (|clean| < 4 ==> c == 0) && (|clean| < 3 ==> b == 0)
    ensures GroupNumber(clean) == n
  {
    WordRebuilt(a, b, c, n);
  }

  /** The symbols of a group, and what follows a whole one, decode to its bytes first. */
  lemma {:induction false} GroupBack(bytes: seq<Byte>, more: string)
    requires 0 < |bytes| && (more != "" ==> |bytes| > 2)
    requires forall i | 0 <= i < |more| :: IsSymbol(more[i])
    ensures var clean := GroupSymbols(bytes) + more;
            && (forall i | 0 <= i < |clean| :: IsSymbol(clean[i]))
            && GroupBytes(GroupNumber(clean), if |clean| < 4 then Held(|clean|) else 3)
               == (if |bytes| > 3 then bytes[..3] else bytes)
  {
    var a: Byte, b: Byte, c: Byte := bytes[0], if |bytes| > 1 then bytes[1] else 0, if |bytes| > 2 then bytes[2] else 0;
    var n, clean := Word24(a, b, c), GroupSymbols(bytes) + more;
    GroupDigits(bytes, more, clean, n);
    NumberBack(a, b, c, n, clean);
    WordBytes(a, b, c, n);
  }

  lemma {:induction false} EncodeSymbols(bytes: seq<Byte>)
    ensures bytes == [] ==> Symbols(Encode(bytes)) == ""
    ensures bytes != [] ==> Symbols(Encode(bytes)) == GroupSymbols(bytes) + Symbols(Encode(Rest(bytes, 3)))
  {
    if bytes != [] {
      GroupClean(bytes);
      SymbolsConcat(EncodeGroup(bytes), Encode(Rest(bytes, 3)));
    }
  }

  /** Decoding the text of any bytes gives the bytes back. */
  lemma {:induction false} RoundTrip(bytes: seq<Byte>)
    ensures Decode(Symbols(Encode(bytes))) == bytes
    decreases |bytes|
  {
    EncodeSymbols(bytes);
    if bytes != [] {
      var rest := Rest(bytes, 3);
      var more := Symbols(Encode(rest));
      EncodeSymbols(rest);
      RoundTrip(rest);
      GroupBack(bytes, more);
      var clean := GroupSymbols(bytes) + more;
      if rest == [] {
        assert clean == GroupSymbols(bytes);
        assert Held(4) == 3;
      } else {
        assert clean[4..] == more;
        assert bytes == bytes[..3] + rest;
      }
    }
  }

  lemma {:induction false} DecodeLength(clean: string)
    requires forall i | 0 <= i < |clean| :: IsSymbol(clean[i])
    ensures |Decode(clean)| == Held(|clean|)
    decreases |clean|
  {
    if |clean| > 4 {
      DecodeLength(clean[4..]);
      assert Held(|clean|) == 3 + Held(|clean| - 4);
    }
  }

  /** The text of bytes has these three at `o`, as far as it goes. */
  predicate Gives(whole: seq<Byte>, o: nat, x: Byte, y: Byte, z: Byte)
  {
    && (o < |whole| ==> whole[o] == x) && (o + 1 < |whole| ==> whole[o + 1] == y)
    && (o + 2 < |whole| ==> whole[o + 2] == z)
  }

  lemma {:induction false} GivesHead(n: nat, count: nat, tail: seq<Byte>)
    requires count <= 3 && (tail != [] ==> count == 3)
    ensures Gives(GroupBytes(n, count) + tail, 0, n / 65_536 % 256, n / 256 % 256, n % 256)
  {
  }

  lemma {:induction false} GivesLater(head: seq<Byte>, tail: seq<Byte>, o: nat, at: nat, x: Byte, y: Byte, z: Byte)
    requires Gives(tail, o, x, y, z) && at == o + |head|
    ensures Gives(head + tail, at, x, y, z)
  {
  }

  /** The bytes the `k`th group of symbols gives, as far as there are any. */
  lemma {:induction false} DecodeAt(clean: string, i: nat, o: nat, k: nat, n: nat)
    requires forall j | 0 <= j < |clean| :: IsSymbol(clean[j])
    requires i == 4 * k && o == 3 * k && i < |clean| && n == GroupNumber(clean[i..])
    ensures Gives(Decode(clean), o, n / 65_536 % 256, n / 256 % 256, n % 256)
    decreases k
  {
    if k == 0 {
      assert clean[0..] == clean;
      GivesHead(n, if |clean| <= 4 then Held(|clean|) else 3, if |clean| <= 4 then [] else Decode(clean[4..]));
      assert GroupBytes(n, Held(|clean|)) + [] == GroupBytes(n, Held(|clean|));
    } else {
      assert clean[4..][i - 4..] == clean[i..];
      DecodeAt(clean[4..], i - 4, o - 3, k - 1, n);
      GivesLater(GroupBytes(GroupNumber(clean), 3), Decode(clean[4..]), o - 3, o,
                 n / 65_536 % 256, n / 256 % 256, n % 256);
    }
  }

  lemma {:induction false} AllHeld(len: nat, k: nat)
    requires len <= 4 * k
    ensures Held(len) <= 3 * k
  {
  }

  /** The first `o` places of the array hold the bytes. */
  ghost predicate Agrees(out: array<Byte>, o: nat, whole: seq<Byte>)
    reads out
  {
    o <= out.Length == |whole| && forall j | 0 <= j < o :: out[j] == whole[j]
  }

  /** Writes a byte if there is room. */
  method Put(out: array<Byte>, o: nat, b: Byte, ghost whole: seq<Byte>) returns (next: nat)
    requires Agrees(out, o, whole) && (o < |whole| ==> whole[o] == b)
    modifies out
    ensures Agrees(out, next, whole) && next == if o < |whole| then o + 1 else o
  {
    next := o;
    if o < out.Length {
      out[o] := b;
      next := o + 1;
    }
  }

  /** Writes the bytes of one group while there is room. */
  method PutGroup(out: array<Byte>, o: nat, n: nat, ghost at: nat, ghost whole: seq<Byte>) returns (next: nat)
    requires Agrees(out, o, whole) && o == (if at <= |whole| then at else |whole|)
    requires Gives(whole, at, n / 65_536 % 256, n / 256 % 256, n % 256)
    modifies out
    ensures Agrees(out, next, whole) && next == if at + 3 <= |whole| then at + 3 else |whole|
  {
    next := Put(out, o, n / 65_536 % 256, whole);
    next := Put(out, next, n / 256 % 256, whole);
    next := Put(out, next, n % 256, whole);
  }

  /** `fromBase64`: writes while there is room, so what the last group lacks is cut. */
  method FromBase64(text: string) returns (out: array<Byte>)
    ensures out[..] == Decode(Symbols(text)) && fresh(out)
  {
    var clean := Symbols(text);
    out := new Byte[|clean| * 3 / 4];
    ghost var whole, k := Decode(clean), 0;
    DecodeLength(clean);
    var o, i := 0, 0;
    while i < |clean|
      invariant 0 <= k && i == 4 * k && out.Length == |whole|
      invariant o == if 3 * k <= |whole| then 3 * k else |whole|
      invariant Agrees(out, o, whole)
      decreases |clean| - i
    {
      var n := GroupNumber(clean[i..]);
      DecodeAt(clean, i, 3 * k, k, n);
      o := PutGroup(out, o, n, 3 * k, whole);
      i := i + 4;
      k := k + 1;
    }
    AllHeld(|clean|, k);
  }

  /** The first three of the test vectors of section 10 of RFC 4648 that are not empty. */
  lemma {:induction false} Vectors()
    ensures Encode([102]) == "Zg==" && Encode([102, 111]) == "Zm8=" && Encode([102, 111, 111]) == "Zm9v"
  {
    WordDigits(102, 0, 0, Word24(102, 0, 0));
    WordDigits(102, 111, 0, Word24(102, 111, 0));
    WordDigits(102, 111, 111, Word24(102, 111, 111));
    assert Encode([]) == "";
  }
}
