// The cpu.stat parser: one pass over the lines, later lines win.
module CpuStat {
  import opened Machine
  import opened Text

  datatype Stat = Stat(nrPeriods: U64, nrThrottled: U64, throttledUsec: U64)

  const NR_PERIODS := "nr_periods"
  const NR_THROTTLED := "nr_throttled"
  const THROTTLED_USEC := "throttled_usec"

  // What a line says: its first word, and its second when that is a u64.
  function Reading(line: string): Option<(string, U64)> {
    var words := SplitWhitespace(line);
    if |words| < 2 then None
    else
      match ParseUnsigned(words[1], U64_MAX)
      case None => None
      case Some(n) => Some((words[0], n))
  }

  predicate IsFor(r: Option<(string, U64)>, key: string) {
    r.Some? && r.value.0 == key
  }

  // The last reading for the key, 0 when there is none.
  function LastFor(readings: seq<Option<(string, U64)>>, key: string): U64 {
    if readings == [] then 0
    else if IsFor(readings[|readings| - 1], key) then readings[|readings| - 1].value.1
    else LastFor(readings[..|readings| - 1], key)
  }

  function Readings(lines: seq<string>): seq<Option<(string, U64)>> {
    seq(|lines|, i requires 0 <= i < |lines| => Reading(lines[i]))
  }

  // The value on the last line whose first word is the key and whose second
  // word is a u64, 0 when there is none.
  function ValueOf(lines: seq<string>, key: string): U64 {
    LastFor(Readings(lines), key)
  }

  function StatOf(lines: seq<string>): Stat {
    Stat(ValueOf(lines, NR_PERIODS), ValueOf(lines, NR_THROTTLED), ValueOf(lines, THROTTLED_USEC))
  }

  method Parse(s: string) returns (out: Stat)
    ensures out == StatOf(Lines(s))
  {
    var lines := Lines(s);
    out := Stat(0, 0, 0);
    for i := 0 to |lines|
      invariant out == StatOf(lines[..i])
    {
      assert Readings(lines[..i + 1]) == Readings(lines[..i]) + [Reading(lines[i])];
      assert Readings(lines[..i + 1])[..i] == Readings(lines[..i]);
      var words := SplitWhitespace(lines[i]);
      if |words| == 0 {
        continue;
      }
      var key := words[0];
      if |words| == 1 {
        continue;
      }
      var n := ParseUnsigned(words[1], U64_MAX);
      if n.None? {
        continue;
      }
      if key == NR_PERIODS {
        out := out.(nrPeriods := n.value);
      } else if key == NR_THROTTLED {
        out := out.(nrThrottled := n.value);
      } else if key == THROTTLED_USEC {
        out := out.(throttledUsec := n.value);
      }
    }
    assert lines[..|lines|] == lines;
  }

  // A reading for the key decides the value when no later one is for it.
  ghost predicate Decides(readings: seq<Option<(string, U64)>>, key: string, i: nat) {
    && i < |readings| && IsFor(readings[i], key)
    && forall j :: i < j < |readings| ==> !IsFor(readings[j], key)
  }

  lemma {:induction false} LastReadingWins(readings: seq<Option<(string, U64)>>, key: string, i: nat)
    requires i <= |readings|
    ensures Decides(readings, key, i) ==> LastFor(readings, key) == readings[i].value.1
    ensures (forall j :: 0 <= j < |readings| ==> !IsFor(readings[j], key)) ==> LastFor(readings, key) == 0
  {
    if readings != [] && !IsFor(readings[|readings| - 1], key) {
      LastReadingWins(readings[..|readings| - 1], key, if i < |readings| then i else i - 1);
    }
  }

  lemma {:induction false} OtherReadingsIgnored(a: seq<Option<(string, U64)>>, junk: seq<Option<(string, U64)>>,
                                                b: seq<Option<(string, U64)>>, key: string)
    requires forall i :: 0 <= i < |junk| ==> !IsFor(junk[i], key)
    ensures LastFor(a + junk + b, key) == LastFor(a + b, key)
    decreases |junk| + |b|
  {
    var all := a + junk + b;
    if b != [] {
      assert all[..|all| - 1] == a + junk + b[..|b| - 1] && (a + b)[..|a + b| - 1] == a + b[..|b| - 1];
      OtherReadingsIgnored(a, junk, b[..|b| - 1], key);
    } else if junk != [] {
      assert all[..|all| - 1] == a + junk[..|junk| - 1] + b;
      OtherReadingsIgnored(a, junk[..|junk| - 1], b, key);
    } else {
      assert all == a + b;
    }
  }

  // Lines that do not read the key, unknown or malformed, can be put in
  // anywhere without effect on it.
  lemma {:induction false} OtherLinesIgnored(a: seq<string>, junk: seq<string>, b: seq<string>, key: string)
    requires forall i :: 0 <= i < |junk| ==> !IsFor(Reading(junk[i]), key)
    ensures ValueOf(a + junk + b, key) == ValueOf(a + b, key)
  {
    OtherReadingsIgnored(Readings(a), Readings(junk), Readings(b), key);
    ReadingsConcat(a + junk, b);
    ReadingsConcat(a, junk);
    ReadingsConcat(a, b);
  }

  lemma {:induction false} ReadingsConcat(a: seq<string>, b: seq<string>)
    ensures Readings(a + b) == Readings(a) + Readings(b)
  {
  }

  // ---- Round trip --------------------------------------------------------

  function Line(key: string, n: U64): string {
    key + " " + Decimal(n)
  }

  // The three lines of cpu.stat that the rule reads, in the kernel's order and
  // with the kernel's names.
  function Render(s: Stat): string {
    Unlines([Line("nr_periods", s.nrPeriods), Line("nr_throttled", s.nrThrottled),
             Line("throttled_usec", s.throttledUsec)])
  }

  lemma {:induction false} LineReads(key: string, n: U64)
    requires IsWord(key) && '\n' !in key
    ensures IsLine(Line(key, n)) && Reading(Line(key, n)) == Some((key, n))
  {
    DecimalIsWord(n);
    SplitTwoWords(key, Decimal(n));
    ParseOfDecimal(n, U64_MAX);
    var l := Line(key, n);
    assert l[|l| - 1] == Decimal(n)[|Decimal(n)| - 1];
  }

  lemma {:induction false} StatOfThree(a: string, b: string, c: string)
    requires IsLine(a) && IsLine(b) && IsLine(c)
    requires IsFor(Reading(a), NR_PERIODS) && IsFor(Reading(b), NR_THROTTLED) && IsFor(Reading(c), THROTTLED_USEC)
    ensures StatOf(Lines(Unlines([a, b, c]))) == Stat(Reading(a).value.1, Reading(b).value.1, Reading(c).value.1)
  {
    LinesOfUnlines([a, b, c]);
    ReadingsOfThree(a, b, c);
    LastOfThree(Reading(a), Reading(b), Reading(c));
  }

  lemma {:induction false} ReadingsOfThree(a: string, b: string, c: string)
    ensures Readings([a, b, c]) == [Reading(a), Reading(b), Reading(c)]
  {
  }

  lemma {:induction false} KeysAreWords()
    ensures IsWord(NR_PERIODS) && IsWord(NR_THROTTLED) && IsWord(THROTTLED_USEC)
    ensures '\n' !in NR_PERIODS && '\n' !in NR_THROTTLED && '\n' !in THROTTLED_USEC
  {
  }

  // Parsing what was printed gives the three fields back.
  lemma {:induction false} ParseOfRender(s: Stat)
    ensures StatOf(Lines(Render(s))) == s
  {
    KeysAreWords();
    LineReads(NR_PERIODS, s.nrPeriods);
    LineReads(NR_THROTTLED, s.nrThrottled);
    LineReads(THROTTLED_USEC, s.throttledUsec);
    StatOfThree(Line(NR_PERIODS, s.nrPeriods),
                Line(NR_THROTTLED, s.nrThrottled),
                Line(THROTTLED_USEC, s.throttledUsec));
  }

  lemma {:induction false} LastOfThree(a: Option<(string, U64)>, b: Option<(string, U64)>, c: Option<(string, U64)>)
    requires IsFor(a, NR_PERIODS) && IsFor(b, NR_THROTTLED) && IsFor(c, THROTTLED_USEC)
    ensures LastFor([a, b, c], NR_PERIODS) == a.value.1
    ensures LastFor([a, b, c], NR_THROTTLED) == b.value.1
    ensures LastFor([a, b, c], THROTTLED_USEC) == c.value.1
  {
    assert |NR_PERIODS| == 10 && |NR_THROTTLED| == 12 && |THROTTLED_USEC| == 14;
    LastReadingWins([a, b, c], NR_PERIODS, 0);
    LastReadingWins([a, b, c], NR_THROTTLED, 1);
    LastReadingWins([a, b, c], THROTTLED_USEC, 2);
  }
}
