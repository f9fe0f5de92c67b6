// Temp-file syscall events: one finding per (pid, path) under pgsql_tmp.
module SpillDedup {
  import opened Machine

  // The path buffer of an event, NUL-padded.
  datatype TempFileEvent = TempFileEvent(pid: U32, path: seq<U8>)

  datatype Spill = Spill(pid: U32, path: string)

  const MARKER := "pgsql_tmp"

  // The bytes before the first NUL, or all of them.
  function UntilNul(buf: seq<U8>): (r: seq<U8>)
    ensures r <= buf && 0 !in r
    ensures r == buf || (|r| < |buf| && buf[|r|] == 0)
  {
    if buf == [] || buf[0] == 0 then [] else [buf[0]] + UntilNul(buf[1..])
  }

  predicate OccursAt(s: string, sub: string, i: nat) {
    i + |sub| <= |s| && s[i..i + |sub|] == sub
  }

  predicate Contains(s: string, sub: string) {
    exists i :: 0 <= i <= |s| && OccursAt(s, sub, i)
  }

  // The spill an event reports, for a given decoding of path bytes to text.
  function SpillOf(decode: seq<U8> -> string, e: TempFileEvent): Option<Spill> {
    var path := decode(UntilNul(e.path));
    if Contains(path, MARKER) then Some(Spill(e.pid, path)) else None
  }

  lemma {:induction false} ContainsIff(s: string, sub: string)
    ensures Contains(s, sub) <==> exists a, b :: s == a + sub + b
  {
    if i :| 0 <= i <= |s| && OccursAt(s, sub, i) {
      assert s == s[..i] + sub + s[i + |sub|..];
    }
    if a, b :| s == a + sub + b {
      assert OccursAt(s, sub, |a|);
    }
  }

  // The event's path is text around pgsql_tmp, and x is that text with the pid.
  ghost predicate Reports(decode: seq<U8> -> string, e: TempFileEvent, x: Spill) {
    && (exists a, b :: decode(UntilNul(e.path)) == a + "pgsql_tmp" + b)
    && x == Spill(e.pid, decode(UntilNul(e.path)))
  }

  lemma {:induction false} SpillOfIff(decode: seq<U8> -> string, e: TempFileEvent, x: Spill)
    ensures SpillOf(decode, e) == Some(x) <==> Reports(decode, e, x)
  {
    ContainsIff(decode(UntilNul(e.path)), MARKER);
  }

  function Spills(decode: seq<U8> -> string, events: seq<TempFileEvent>): seq<Spill> {
    if events == [] then []
    else
      var before, s := Spills(decode, events[..|events| - 1]), SpillOf(decode, events[|events| - 1]);
      if s.None? then before else before + [s.value]
  }

  // The elements in order of first occurrence, each once.
  function FirstOccurrences(s: seq<Spill>): seq<Spill> {
    if s == [] then []
    else
      var before, x := s[..|s| - 1], s[|s| - 1];
      if x in before then FirstOccurrences(before) else FirstOccurrences(before) + [x]
  }

  // Position i is the first one with its element.
  predicate IsFirst(s: seq<Spill>, i: nat) {
    i < |s| && s[i] !in s[..i]
  }

  // No element is repeated, none is missing or added, and they come in the
  // order in which they first occurred.
  lemma {:induction false} FirstOccurrencesAre(s: seq<Spill>)
    ensures var f := FirstOccurrences(s);
            && (forall i, j :: 0 <= i < j < |f| ==> f[i] != f[j])
            && (forall x :: x in f <==> x in s)
            && (forall p, q, i: nat, j: nat ::
                  0 <= p < q < |f| && IsFirst(s, i) && IsFirst(s, j) && s[i] == f[p] && s[j] == f[q] ==> i < j)
  {
    if s != [] {
      var before, x := s[..|s| - 1], s[|s| - 1];
      FirstOccurrencesAre(before);
      assert forall y :: y in s <==> y in before || y == x;
      var f, g := FirstOccurrences(s), FirstOccurrences(before);
      forall p, q, i: nat, j: nat | 0 <= p < q < |f| && IsFirst(s, i) && IsFirst(s, j) && s[i] == f[p] && s[j] == f[q]
        ensures i < j
      {
        FirstBefore(s, i);
        FirstBefore(s, j);
        assert p < |g| && f[p] == g[p] && g[p] in g;
        if q < |g| {
          assert g[q] in g && f[q] == g[q];
        }
      }
    }
  }

  // Inside the history the first position of an element is not affected by
  // what comes after it.
  lemma {:induction false} FirstBefore(s: seq<Spill>, i: nat)
    requires IsFirst(s, i)
    ensures i < |s| - 1 ==> IsFirst(s[..|s| - 1], i) && s[..|s| - 1][i] == s[i]
    ensures i == |s| - 1 ==> s[i] !in s[..|s| - 1]
    ensures i < |s| - 1 ==> s[i] in s[..|s| - 1]
  {
    if i < |s| - 1 {
      assert s[..|s| - 1][..i] == s[..i];
      assert s[..|s| - 1][i] == s[i];
    }
  }

  lemma {:induction false} SpillsAre(decode: seq<U8> -> string, events: seq<TempFileEvent>, x: Spill)
    ensures x in Spills(decode, events) <==> exists i :: 0 <= i < |events| && Reports(decode, events[i], x)
  {
    if events != [] {
      var n := |events| - 1;
      var before := events[..n];
      SpillsAre(decode, before, x);
      SpillOfIff(decode, events[n], x);
      if i :| 0 <= i < n && Reports(decode, before[i], x) {
        assert Reports(decode, events[i], x);
      }
      if i :| 0 <= i < |events| && Reports(decode, events[i], x) {
        assert i < n ==> Reports(decode, before[i], x);
      }
    }
  }

  // What is reported over any events: every spill that some event reports, and
  // nothing else, each once.
  lemma {:induction false} ReportedAre(decode: seq<U8> -> string, events: seq<TempFileEvent>, x: Spill)
    ensures var f := FirstOccurrences(Spills(decode, events));
            && (x in f <==> exists i :: 0 <= i < |events| && Reports(decode, events[i], x))
            && (forall i, j :: 0 <= i < j < |f| ==> f[i] != f[j])
  {
    SpillsAre(decode, events, x);
    FirstOccurrencesAre(Spills(decode, events));
  }

  class SpillReporter {
    const decode: seq<U8> -> string
    var seen: set<Spill>
    ghost var events: seq<TempFileEvent>
    ghost var emitted: seq<Spill>

    // What was emitted are the first occurrences among the events so far, and
    // the seen set is exactly what was emitted.
    ghost predicate Valid()
      reads this
    {
      && emitted == FirstOccurrences(Spills(decode, events))
      && (forall x :: x in seen <==> x in emitted)
    }

    constructor (decode: seq<U8> -> string)
      ensures Valid() && events == [] && emitted == [] && this.decode == decode
    {
      this.decode := decode;
      seen, events, emitted := {}, [], [];
    }

    method OnEvent(e: TempFileEvent) returns (finding: Option<Spill>)
      requires Valid()
      modifies this
      ensures Valid() && events == old(events) + [e]
      ensures emitted == if finding.Some? then old(emitted) + [finding.value] else old(emitted)
      ensures finding.Some? ==> Reports(decode, e, finding.value) && finding.value !in old(emitted)
      ensures forall x :: Reports(decode, e, x) ==> x in emitted
    {
      ghost var spills := Spills(decode, events);
      assert (events + [e])[..|events|] == events;
      events := events + [e];
      var path := decode(UntilNul(e.path));
      ContainsIff(path, MARKER);
      if !Contains(path, MARKER) {
        return None;
      }
      var key := Spill(e.pid, path);
      FirstOccurrencesAre(spills);
      assert (spills + [key])[..|spills|] == spills;
      if key in seen {
        return None;
      }
      seen := seen + {key};
      emitted := emitted + [key];
      return Some(key);
    }
  }
}
