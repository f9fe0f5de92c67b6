// The parts of Rust's string handling that the parsers use.
module Text {
  import opened Machine

  // Unicode White_Space.
  predicate IsWhitespace(c: char) {
    || '\U{0009}' <= c <= '\U{000D}' || c == ' ' || c == '\U{0085}' || c == '\U{00A0}' || c == '\U{1680}'
    || '\U{2000}' <= c <= '\U{200A}' || c == '\U{2028}' || c == '\U{2029}' || c == '\U{202F}'
    || c == '\U{205F}' || c == '\U{3000}'
  }

  const WHITE_SPACE: set<int> := {
    0x09, 0x0A, 0x0B, 0x0C, 0x0D, 0x20, 0x85, 0xA0, 0x1680,
    0x2000, 0x2001, 0x2002, 0x2003, 0x2004, 0x2005, 0x2006, 0x2007, 0x2008, 0x2009, 0x200A,
    0x2028, 0x2029, 0x202F, 0x205F, 0x3000}

  lemma {:induction false} WhitespaceIs(c: char)
    ensures IsWhitespace(c) <==> c as int in WHITE_SPACE
  {
  }

  predicate AllSpace(s: string) {
    forall i :: 0 <= i < |s| ==> IsWhitespace(s[i])
  }

  predicate IsDigit(c: char) {
    '0' <= c <= '9'
  }

  // ---- Tokens ------------------------------------------------------------

  // Number of leading characters that are, and that are not, white space.
  function SpaceLength(s: string): (n: nat)
    ensures n <= |s| && (n < |s| ==> !IsWhitespace(s[n]))
  {
    if s == "" || !IsWhitespace(s[0]) then 0 else 1 + SpaceLength(s[1..])
  }

  function WordLength(s: string): (n: nat)
    ensures n <= |s| && (s != "" && !IsWhitespace(s[0]) ==> 0 < n)
  {
    if s == "" || IsWhitespace(s[0]) then 0 else 1 + WordLength(s[1..])
  }

  function SplitWhitespace(s: string): seq<string>
    decreases |s|
  {
    var t := s[SpaceLength(s)..];
    if t == "" then [] else [t[..WordLength(t)]] + SplitWhitespace(t[WordLength(t)..])
  }

  predicate IsWord(s: string) {
    s != "" && forall i :: 0 <= i < |s| ==> !IsWhitespace(s[i])
  }

  lemma {:induction false} WordLengthOf(w: string, rest: string)
    requires forall i :: 0 <= i < |w| ==> !IsWhitespace(w[i])
    requires rest == "" || IsWhitespace(rest[0])
    ensures WordLength(w + rest) == |w|
  {
    if w == "" {
      assert w + rest == rest;
    } else {
      assert (w + rest)[1..] == w[1..] + rest;
      WordLengthOf(w[1..], rest);
    }
  }

  lemma {:induction false} SpaceLengthOf(gap: string, s: string)
    requires AllSpace(gap)
    ensures SpaceLength(gap + s) == |gap| + SpaceLength(s)
  {
    if gap == "" {
      assert gap + s == s;
    } else {
      assert (gap + s)[1..] == gap[1..] + s;
      SpaceLengthOf(gap[1..], s);
    }
  }

  // Space before a word does not matter, and a word ends at the next space.
  lemma {:induction false} SplitWhitespaceIs(gap: string, w: string, rest: string)
    requires AllSpace(gap)
    ensures SplitWhitespace(gap) == []
    ensures IsWord(w) && (rest == "" || IsWhitespace(rest[0])) ==>
              SplitWhitespace(gap + w + rest) == [w] + SplitWhitespace(rest)
  {
    SpaceLengthOf(gap, "");
    assert gap + "" == gap;
    if IsWord(w) && (rest == "" || IsWhitespace(rest[0])) {
      var s := w + rest;
      assert gap + w + rest == gap + s && (gap + s)[|gap|..] == s;
      SpaceLengthOf(gap, s);
      WordLengthOf(w, rest);
      assert s[..|w|] == w && s[|w|..] == rest;
    }
  }

  lemma {:induction false} SplitOneWord(w: string)
    requires IsWord(w)
    ensures SplitWhitespace(w) == [w]
  {
    WordLengthOf(w, "");
    assert w + "" == w;
  }

  lemma {:induction false} SplitTwoWords(a: string, b: string)
    requires IsWord(a) && IsWord(b)
    ensures SplitWhitespace(a + " " + b) == [a, b]
  {
    var s := a + (" " + b);
    assert s == a + " " + b && s[0..] == s;
    WordLengthOf(a, " " + b);
    assert s[..|a|] == a && s[|a|..] == " " + b;
    var r := " " + b;
    assert r[1..] == b;
    assert SpaceLength(r) == 1;
    SplitOneWord(b);
    assert SplitWhitespace(r) == [b];
  }

  // ---- Lines -------------------------------------------------------------

  function LineLength(s: string): (n: nat)
    ensures n <= |s|
  {
    if s == "" || s[0] == '\n' then 0 else 1 + LineLength(s[1..])
  }

  function StripCr(s: string): string {
    if s != "" && s[|s| - 1] == '\r' then s[..|s| - 1] else s
  }

  // Lines end with a newline, with or without a carriage return before it; the
  // last one need not.
  function Lines(s: string): seq<string>
    decreases |s|
  {
    if s == "" then []
    else
      var n := LineLength(s);
      if n == |s| then [s] else [StripCr(s[..n])] + Lines(s[n + 1..])
  }

  function Unlines(lines: seq<string>): string {
    if lines == [] then "" else lines[0] + "\n" + Unlines(lines[1..])
  }

  predicate IsLine(s: string) {
    '\n' !in s && StripCr(s) == s
  }

  lemma {:induction false} LineLengthOf(l: string, rest: string)
    requires '\n' !in l
    ensures LineLength(l + "\n" + rest) == |l|
  {
    if l != "" {
      assert (l + "\n" + rest)[1..] == l[1..] + "\n" + rest;
      assert l[0] in l;
      LineLengthOf(l[1..], rest);
    }
  }

  lemma {:induction false} NoNewline(l: string)
    requires '\n' !in l
    ensures LineLength(l) == |l|
  {
    if l != "" {
      assert l[0] in l;
      NoNewline(l[1..]);
    }
  }

  // What comes after the last newline is a line, unless it is empty.
  lemma {:induction false} LastLine(l: string)
    requires '\n' !in l
    ensures Lines(l) == if l == "" then [] else [l]
  {
    NoNewline(l);
  }

  lemma {:induction false} LinesStep(l: string, rest: string)
    requires '\n' !in l
    ensures Lines(l + "\n" + rest) == [StripCr(l)] + Lines(rest)
  {
    var s := l + "\n" + rest;
    LineLengthOf(l, rest);
    assert s[..|l|] == l && s[|l| + 1..] == rest;
  }

  // A newline ends a line, together with one carriage return before it.
  lemma {:induction false} LineBeforeNewline(l: string, rest: string)
    requires '\n' !in l
    ensures l == "" || l[|l| - 1] != '\r' ==> Lines(l + "\n" + rest) == [l] + Lines(rest)
    ensures Lines((l + ['\r']) + "\n" + rest) == [l] + Lines(rest)
  {
    LinesStep(l, rest);
    LinesStep(l + ['\r'], rest);
    assert StripCr(l + ['\r']) == l;
  }

  lemma {:induction false} LinesOfUnlines(lines: seq<string>)
    requires forall l :: l in lines ==> IsLine(l)
    ensures Lines(Unlines(lines)) == lines
  {
    if lines != [] {
      var l, rest := lines[0], Unlines(lines[1..]);
      var s := l + "\n" + rest;
      assert l in lines && IsLine(l);
      LineLengthOf(l, rest);
      assert Unlines(lines) == s && |l| < |s|;
      assert s[..|l|] == l && s[|l| + 1..] == rest;
      LinesOfUnlines(lines[1..]);
    }
  }

  // ---- Numbers -----------------------------------------------------------

  predicate AllDigits(s: string) {
    forall i :: 0 <= i < |s| ==> IsDigit(s[i])
  }

  function DigitsValue(s: string): nat
    requires AllDigits(s)
  {
    if s == "" then 0 else 10 * DigitsValue(s[..|s| - 1]) + (s[|s| - 1] as int - '0' as int)
  }

  // An unsigned integer of at most max: an optional plus sign and digits.
  function ParseUnsigned(s: string, max: nat): (r: Option<nat>)
    ensures r.Some? ==> r.value <= max
  {
    var d := if s != "" && s[0] == '+' then s[1..] else s;
    if d != "" && AllDigits(d) && DigitsValue(d) <= max then Some(DigitsValue(d)) else None
  }

  function Decimal(n: nat): string {
    var digit := ['0' + (n % 10) as char];
    if n < 10 then digit else Decimal(n / 10) + digit
  }

  function Pow10(n: nat): nat {
    if n == 0 then 1 else 10 * Pow10(n - 1)
  }

  // Each digit times its power of ten.
  function PlaceSum(s: string): nat
    requires AllDigits(s)
  {
    if s == "" then 0 else (s[0] as int - '0' as int) * Pow10(|s| - 1) + PlaceSum(s[1..])
  }

  lemma {:induction false} DigitsArePlaces(s: string)
    requires AllDigits(s)
    ensures DigitsValue(s) == PlaceSum(s)
  {
    if s != "" {
      PlaceSumLast(s);
      DigitsArePlaces(s[..|s| - 1]);
    }
  }

  lemma {:induction false} PlaceSumLast(s: string)
    requires s != "" && AllDigits(s)
    ensures PlaceSum(s) == 10 * PlaceSum(s[..|s| - 1]) + (s[|s| - 1] as int - '0' as int)
  {
    if 1 < |s| {
      var rest, init, d := s[1..], s[..|s| - 1], s[0] as int - '0' as int;
      PlaceSumLast(rest);
      assert rest[..|rest| - 1] == init[1..];
      TenTimes(d, Pow10(|s| - 2));
    } else {
      assert s[..0] == "" && s[1..] == "";
    }
  }

  lemma {:induction false} TenTimes(d: nat, p: nat)
    ensures d * (10 * p) == 10 * (d * p)
  {
  }

  // What is accepted as an unsigned integer, and with which value.
  lemma {:induction false} ParseUnsignedIff(s: string, max: nat, v: nat)
    ensures ParseUnsigned(s, max) == Some(v) <==>
            exists d :: (s == d || s == "+" + d) && d != "" && AllDigits(d) && v == PlaceSum(d) && v <= max
  {
    var d := if s != "" && s[0] == '+' then s[1..] else s;
    assert s == d || s == "+" + d;
    if AllDigits(d) { DigitsArePlaces(d); }
    if d' :| (s == d' || s == "+" + d') && d' != "" && AllDigits(d') && v == PlaceSum(d') && v <= max {
      assert IsDigit(d'[0]) && s == "+" + d' ==> s[1..] == d';
      assert d == d';
    }
  }

  lemma {:induction false} DecimalDigits(n: nat)
    ensures Decimal(n) != "" && AllDigits(Decimal(n)) && DigitsValue(Decimal(n)) == n
    ensures Decimal(n)[0] == '0' ==> Decimal(n) == "0"
  {
    var s, c := Decimal(n), '0' + (n % 10) as char;
    assert IsDigit(c) && c as int - '0' as int == n % 10;
    if 10 <= n {
      DecimalDigits(n / 10);
      assert s[..|s| - 1] == Decimal(n / 10);
    } else {
      assert s[..0] == "";
    }
  }

  // Printing a number and parsing it back gives the number.
  lemma {:induction false} ParseOfDecimal(n: nat, max: nat)
    requires n <= max
    ensures ParseUnsigned(Decimal(n), max) == Some(n)
  {
    DecimalDigits(n);
    assert IsDigit(Decimal(n)[0]);
  }

  lemma {:induction false} DecimalIsWord(n: nat)
    ensures IsWord(Decimal(n)) && '\n' !in Decimal(n) && ':' !in Decimal(n)
    ensures StripCr(Decimal(n)) == Decimal(n)
  {
    DecimalDigits(n);
    var s := Decimal(n);
    assert forall i :: 0 <= i < |s| ==> IsDigit(s[i]);
  }
}
