/** The log of written and tagged memory (`emu/debug/debug_manager.cc`). */
module DebugManagers {

  /** An untagged span, one with an empty tag, records `writes + 1` writes that touch or overlap. */
  datatype Span = Span(start: nat, end: nat, tag: string, writes: nat)

  // ---- The order of spans -----------------------------------------------------------------------

  predicate TagLess(a: string, b: string) {
    if b == [] then false
    else if a == [] then true
    else a[0] < b[0] || (a[0] == b[0] && TagLess(a[1..], b[1..]))
  }

  predicate Less(a: Span, b: Span) {
    if a.start != b.start then a.start < b.start
    else if a.end != b.end then a.end > b.end
    else TagLess(a.tag, b.tag)
  }

  lemma {:induction false} TagOrder(a: string, b: string, c: string)
    ensures !(TagLess(a, b) && TagLess(b, a))
    ensures !TagLess(a, b) && !TagLess(b, a) ==> a == b
    ensures TagLess(a, b) && TagLess(b, c) ==> TagLess(a, c)
  {
    if a != [] && b != [] {
      TagOrder(a[1..], b[1..], if c == [] then [] else c[1..]);
      if a[0] == b[0] && a[1..] == b[1..] {
        assert a == [a[0]] + a[1..] && b == [b[0]] + b[1..];
      }
    }
  }

  lemma LessOrder(a: Span, b: Span, c: Span)
    ensures !Less(b, a) && !Less(c, b) ==> !Less(c, a)
    ensures Less(a, b) ==> !Less(b, a)
  {
    TagOrder(a.tag, b.tag, c.tag);
    TagOrder(b.tag, c.tag, a.tag);
    TagOrder(c.tag, a.tag, b.tag);
  }

  /** By start, then the longer first, then by tag. */
  lemma LessIs(a: Span, b: Span)
    ensures Less(a, b) <==>
            || a.start < b.start
            || (a.start == b.start && a.end > b.end)
            || (a.start == b.start && a.end == b.end && TagLess(a.tag, b.tag))
  {
  }

  /** Tags compare by their first difference; a tag comes before those it begins. */
  lemma {:induction false} TagLessIs(a: string, b: string)
    ensures TagLess(a, b) <==>
            exists k :: 0 <= k <= |a| && k < |b| && a[..k] == b[..k] && (k < |a| ==> a[k] < b[k])
  {
    if a == [] {
      if b != [] {
        assert a[..0] == b[..0];
      }
    } else if b != [] {
      TagLessIs(a[1..], b[1..]);
      if a[0] < b[0] {
        assert a[..0] == b[..0];
      } else if a[0] == b[0] && TagLess(a[1..], b[1..]) {
        var k :| 0 <= k <= |a[1..]| && k < |b[1..]| && a[1..][..k] == b[1..][..k]
                 && (k < |a[1..]| ==> a[1..][k] < b[1..][k]);
        assert a[..k + 1] == [a[0]] + a[1..][..k] && b[..k + 1] == [b[0]] + b[1..][..k];
      }
      if k :| 0 <= k <= |a| && k < |b| && a[..k] == b[..k] && (k < |a| ==> a[k] < b[k]) {
        if k > 0 {
          assert a[..k][0] == b[..k][0];
          assert a[1..][..k - 1] == a[..k][1..] && b[1..][..k - 1] == b[..k][1..];
        }
      }
    }
  }

  ghost predicate Sorted(spans: seq<Span>) {
    forall i, j :: 0 <= i < j < |spans| ==> !Less(spans[j], spans[i])
  }

  // ---- What a log says --------------------------------------------------------------------------

  predicate Untagged(s: Span) { s.tag == "" }

  /** The spans are of different kinds, or some byte lies strictly between them. */
  predicate Clear(a: Span, b: Span) {
    !Untagged(a) || !Untagged(b) || a.end < b.start || b.end < a.start
  }

  ghost predicate Separated(spans: seq<Span>) {
    forall i, j :: 0 <= i < j < |spans| ==> Clear(spans[i], spans[j])
  }

  ghost predicate InUntagged(spans: seq<Span>, address: int) {
    exists s :: s in spans && Untagged(s) && s.start <= address < s.end
  }

  /** The writes the untagged spans account for. */
  ghost function TotalWrites(spans: seq<Span>): nat {
    if spans == [] then 0 else
      var n := |spans| - 1;
      TotalWrites(spans[..n]) + if Untagged(spans[n]) then spans[n].writes + 1 else 0
  }

  lemma {:induction false} TotalOfConcat(a: seq<Span>, b: seq<Span>)
    ensures TotalWrites(a + b) == TotalWrites(a) + TotalWrites(b)
  {
    if b == [] {
      assert a + b == a;
    } else {
      TotalOfConcat(a, b[..|b| - 1]);
      assert (a + b)[..|a + b| - 1] == a + b[..|b| - 1];
    }
  }

  lemma TotalOfOne(s: Span)
    ensures TotalWrites([s]) == if Untagged(s) then s.writes + 1 else 0
  {
  }

  // ---- Sorting ----------------------------------------------------------------------------------

  function Insert(spans: seq<Span>, s: Span): (r: seq<Span>)
    ensures multiset(r) == multiset(spans) + multiset{s}
    ensures forall x :: x in r <==> x in spans || x == s
  {
    if spans == [] || Less(s, spans[0]) then
      [s] + spans
    else
      assert spans == [spans[0]] + spans[1..];
      [spans[0]] + Insert(spans[1..], s)
  }

  lemma {:induction false} InsertSorted(spans: seq<Span>, s: Span)
    requires Sorted(spans)
    ensures Sorted(Insert(spans, s))
  {
    if spans != [] {
      if Less(s, spans[0]) {
        InsertFront(spans, s);
      } else {
        InsertSorted(spans[1..], s);
        InsertRest(spans, s);
      }
    }
  }

  lemma {:induction false} InsertSeparated(spans: seq<Span>, s: Span)
    requires Separated(spans) && forall x :: x in spans ==> Clear(x, s)
    ensures Separated(Insert(spans, s))
  {
    if spans == [] || Less(s, spans[0]) {
      forall j | 0 <= j < |spans| ensures Clear(s, spans[j]) {
        assert spans[j] in spans;
      }
    } else {
      assert forall x :: x in spans[1..] ==> x in spans;
      InsertSeparated(spans[1..], s);
      var tail := Insert(spans[1..], s);
      forall j | 0 <= j < |tail| ensures Clear(spans[0], tail[j]) {
        assert tail[j] in tail;
      }
    }
  }

  lemma {:induction false} InsertTotal(spans: seq<Span>, s: Span)
    ensures TotalWrites(Insert(spans, s)) == TotalWrites(spans) + TotalWrites([s])
  {
    if spans == [] || Less(s, spans[0]) {
      TotalOfConcat([s], spans);
    } else {
      var first, rest := [spans[0]], spans[1..];
      InsertTotal(rest, s);
      TotalOfConcat(first, Insert(rest, s));
      TotalOfConcat(first, rest);
      assert spans == first + rest;
    }
  }

  lemma InsertFront(spans: seq<Span>, s: Span)
    requires spans != [] && Less(s, spans[0]) && Sorted(spans)
    ensures Sorted([s] + spans)
  {
    forall j | 0 <= j < |spans| ensures !Less(spans[j], s) {
      LessOrder(s, spans[0], spans[j]);
    }
  }

  lemma InsertRest(spans: seq<Span>, s: Span)
    requires spans != [] && !Less(s, spans[0]) && Sorted(spans) && Sorted(Insert(spans[1..], s))
    ensures Sorted([spans[0]] + Insert(spans[1..], s))
  {
    var tail := Insert(spans[1..], s);
    forall j | 0 <= j < |tail| ensures !Less(tail[j], spans[0]) {
      assert tail[j] in tail;
    }
  }

  /** The spans in order. */
  function Sort(spans: seq<Span>): (r: seq<Span>)
    ensures multiset(r) == multiset(spans)
    ensures forall x :: x in r <==> x in spans
  {
    if spans == [] then [] else
      var n := |spans| - 1;
      assert spans == spans[..n] + [spans[n]];
      Insert(Sort(spans[..n]), spans[n])
  }

  lemma {:induction false} SortKeeps(spans: seq<Span>)
    ensures Sorted(Sort(spans)) && TotalWrites(Sort(spans)) == TotalWrites(spans)
    ensures Separated(spans) ==> Separated(Sort(spans))
  {
    if spans != [] {
      var n := |spans| - 1;
      SortKeeps(spans[..n]);
      InsertSorted(Sort(spans[..n]), spans[n]);
      InsertTotal(Sort(spans[..n]), spans[n]);
      TotalOfOne(spans[n]);
      if Separated(spans) {
        forall x | x in spans[..n] ensures Clear(x, spans[n]) {}
        InsertSeparated(Sort(spans[..n]), spans[n]);
      }
    }
  }

  // ---- The log ----------------------------------------------------------------------------------

  ghost predicate Known(spans: seq<Span>, start: nat, end: nat, tag: string) {
    exists s :: s in spans && s.start == start && s.end == end && s.tag == tag
  }

  datatype Write = Write(start: nat, end: nat)

  /** Some write wrote the byte. */
  ghost predicate Recorded(log: seq<Write>, address: int) {
    exists w :: w in log && w.start <= address < w.end
  }

  class DebugManager {
    var memoryTags: seq<Span>
    /** Every call of `RecordWrite` so far. */
    ghost var log: seq<Write>

    constructor ()
      ensures Valid() && memoryTags == [] && log == []
    {
      memoryTags := [];
      log := [];
    }

    /** The spans are in order and the untagged ones apart; together they hold exactly the bytes written, and their
        counts add up to the number of writes. */
    ghost predicate Valid()
      reads this
    {
      && Sorted(memoryTags) && Separated(memoryTags)
      && TotalWrites(memoryTags) == |log|
      && forall a :: InUntagged(memoryTags, a) <==> Recorded(log, a)
    }

    /** What a valid log says, span by span, and of the byte at `a`. */
    lemma ValidMeans(a: int)
      requires Valid()
      ensures forall i, j :: 0 <= i < j < |memoryTags| ==> memoryTags[i].start <= memoryTags[j].start
      ensures forall i, j :: 0 <= i < j < |memoryTags| && memoryTags[i].tag == memoryTags[j].tag == "" ==>
                memoryTags[i].end < memoryTags[j].start || memoryTags[j].end < memoryTags[i].start
      ensures (exists s :: s in memoryTags && s.tag == "" && s.start <= a < s.end)
              <==> exists w :: w in log && w.start <= a < w.end
    {
      hide TotalWrites;
      forall i, j | 0 <= i < j < |memoryTags| ensures memoryTags[i].start <= memoryTags[j].start {
        LessIs(memoryTags[j], memoryTags[i]);
      }
      assert InUntagged(memoryTags, a) <==> Recorded(log, a);
    }

    /** Adds a span that is not there yet. The log stays right exactly if the tag is not empty or the span is there: a
        span with an empty tag counts as a write. */
    method TagMemory(start: nat, end: nat, tag: string)
      requires Valid()
      modifies this`memoryTags
      ensures Valid() <==> tag != "" || old(Known(memoryTags, start, end, tag))
      ensures Sorted(memoryTags)
      ensures multiset(memoryTags) == multiset(old(memoryTags)) +
                if old(Known(memoryTags, start, end, tag)) then multiset{} else multiset{Span(start, end, tag, 0)}
    {
      hide InUntagged, Recorded, TotalWrites, Less, Sorted, Separated, Sort, Insert;
      var span := Span(start, end, tag, 0);
      for i := 0 to |memoryTags|
        invariant forall s :: s in memoryTags[..i] ==> !(s.start == start && s.end == end && s.tag == tag)
      {
        var s := memoryTags[i];
        if s.start == start && s.end == end && s.tag == tag {
          assert s in memoryTags;
          return;
        }
        assert memoryTags[..i + 1] == memoryTags[..i] + [s];
      }
      assert memoryTags[..|memoryTags|] == memoryTags;
      var pushed := memoryTags + [span];
      SortKeeps(pushed);
      TotalOfConcat(memoryTags, [span]);
      TotalOfOne(span);
      ghost var before := memoryTags;
      memoryTags := Sort(pushed);
      if tag != "" {
        TaggedApart(before, span);
        SameUntagged(before, memoryTags, span);
      }
    }

    /** Merge the write with the untagged spans it touches. A write that ends before it starts covers nothing, but
        counts. */
    method RecordWrite(start: nat, end: nat)
      requires Valid()
      modifies this
      ensures Valid() && log == old(log) + [Write(start, end)]
      ensures forall s :: !Untagged(s) ==> multiset(memoryTags)[s] == multiset(old(memoryTags))[s]
    {
      hide InUntagged, Recorded, TotalWrites, Less, Sorted, Separated, Merged, Sort, Insert;
      var kept: seq<Span> := [];
      var span := Span(start, end, "", 0);
      ghost var spans := memoryTags;
      MergeBegin(spans, start, end);
      for i := 0 to |memoryTags|
        invariant memoryTags == spans && log == old(log) && Merged(spans, i, kept, span, start, end)
      {
        var s := memoryTags[i];
        if !Untagged(s) {
          KeepStep(spans, i, kept, span, start, end);
          kept := kept + [s];
        } else if s.end < span.start || s.start > span.end {
          KeepStep(spans, i, kept, span, start, end);
          kept := kept + [s];
        } else {
          ghost var smaller := span;
          span := Span(if s.start < span.start then s.start else span.start,
                       if s.end > span.end then s.end else span.end, "", span.writes + s.writes + 1);
          MergeStep(spans, i, kept, smaller, span, start, end);
        }
      }
      var pushed := kept + [span];
      assert forall s :: s in memoryTags ==> s in spans;
      MergeEnd(spans, kept, span, start, end);
      SortKeeps(pushed);
      SortMeans(pushed);
      memoryTags := Sort(pushed);
      log := log + [Write(start, end)];
      LogGrows(old(log), spans, memoryTags, start, end);
    }
  }

  lemma TaggedApart(spans: seq<Span>, s: Span)
    requires Separated(spans) && !Untagged(s)
    ensures Separated(spans + [s])
  {
  }

  lemma SameUntagged(before: seq<Span>, after: seq<Span>, tagged: Span)
    requires !Untagged(tagged) && forall x :: x in after <==> x in before || x == tagged
    ensures forall a :: InUntagged(after, a) <==> InUntagged(before, a)
  {
  }

  /** After the first `i` spans: those kept are clear of the merged span, and nothing is lost. */
  ghost predicate Merged(spans: seq<Span>, i: nat, kept: seq<Span>, span: Span, start: nat, end: nat) {
    && i <= |spans| && Untagged(span) && span.start <= start && end <= span.end
    && Separated(kept) && (forall x :: x in kept ==> x in spans[..i] && Clear(x, span))
    && TotalWrites(kept) + span.writes == TotalWrites(spans[..i])
    && (forall s :: !Untagged(s) ==> multiset(kept)[s] == multiset(spans[..i])[s])
    && forall a :: InUntagged(kept, a) || span.start <= a < span.end <==> InUntagged(spans[..i], a) || start <= a < end
  }

  lemma SortMeans(spans: seq<Span>)
    ensures forall a :: InUntagged(Sort(spans), a) <==> InUntagged(spans, a)
  {
    hide Sort;
  }

  lemma MergeBegin(spans: seq<Span>, start: nat, end: nat)
    ensures Merged(spans, 0, [], Span(start, end, "", 0), start, end)
  {
    assert spans[..0] == [];
  }

  /** A span that stays. */
  lemma KeepStep(spans: seq<Span>, i: nat, kept: seq<Span>, span: Span, start: nat, end: nat)
    requires Separated(spans) && i < |spans| && Merged(spans, i, kept, span, start, end) && Clear(spans[i], span)
    ensures Merged(spans, i + 1, kept + [spans[i]], span, start, end)
  {
    var s := spans[i];
    var before, after := spans[..i], spans[..i + 1];
    assert after == before + [s];
    TotalOfConcat(before, [s]);
    TotalOfConcat(kept, [s]);
    forall x | x in kept ensures Clear(x, s) {
      assert x in before;
    }
    OneMoreSpan(before, s);
    OneMoreSpan(kept, s);
  }

  /** A span that is merged. */
  lemma MergeStep(spans: seq<Span>, i: nat, kept: seq<Span>, span: Span, span': Span, start: nat, end: nat)
    requires Sorted(spans) && Separated(spans)
    requires i < |spans| && Merged(spans, i, kept, span, start, end)
    requires Untagged(spans[i]) && span.start <= spans[i].end && spans[i].start <= span.end
    requires var s := spans[i];
             span' == Span(if s.start < span.start then s.start else span.start,
                           if s.end > span.end then s.end else span.end, "", span.writes + s.writes + 1)
    ensures Merged(spans, i + 1, kept, span', start, end)
  {
    var s := spans[i];
    var before, after := spans[..i], spans[..i + 1];
    assert after == before + [s];
    assert s in spans;
    TotalOfConcat(before, [s]);
    TotalOfOne(s);
    OneMoreSpan(before, s);
    MergedClear(spans, i, kept, span, span', start, end);
    hide InUntagged, TotalWrites, Separated, Sorted, Clear, Less;
  }

  /** The spans passed over stay clear of the grown one. */
  lemma MergedClear(spans: seq<Span>, i: nat, kept: seq<Span>, span: Span, span': Span, start: nat, end: nat)
    requires Sorted(spans) && Separated(spans)
    requires i < |spans| && Merged(spans, i, kept, span, start, end)
    requires Untagged(spans[i]) && span.start <= spans[i].end && spans[i].start <= span.end
    requires Untagged(span')
    requires span'.start == if spans[i].start < span.start then spans[i].start else span.start
    requires span'.end == if spans[i].end > span.end then spans[i].end else span.end
    ensures forall x :: x in kept ==> x in spans[..i + 1] && Clear(x, span')
  {
    forall x | x in kept ensures x in spans[..i + 1] && Clear(x, span') {
      assert x in spans[..i];
      var j :| 0 <= j < i && spans[j] == x;
      assert Clear(spans[j], spans[i]) && !Less(spans[i], spans[j]);
      assert x in spans && spans[i] in spans;
      assert spans[..i + 1][j] == x;
    }
    hide InUntagged, TotalWrites;
  }

  lemma OneMoreSpan(spans: seq<Span>, s: Span)
    ensures forall a :: InUntagged(spans + [s], a) <==> InUntagged(spans, a) || (Untagged(s) && s.start <= a < s.end)
  {
    forall a ensures InUntagged(spans + [s], a) <==> InUntagged(spans, a) || (Untagged(s) && s.start <= a < s.end) {
      if Untagged(s) && s.start <= a < s.end {
        assert s in spans + [s];
      }
      if x :| x in spans && Untagged(x) && x.start <= a < x.end {
        assert x in spans + [s];
      }
    }
  }

  lemma MergeEnd(spans: seq<Span>, kept: seq<Span>, span: Span, start: nat, end: nat)
    requires Merged(spans, |spans|, kept, span, start, end)
    ensures Separated(kept + [span]) && TotalWrites(kept + [span]) == TotalWrites(spans) + 1
    ensures forall a :: InUntagged(kept + [span], a) <==> InUntagged(spans, a) || start <= a < end
    ensures forall s :: !Untagged(s) ==> multiset(kept + [span])[s] == multiset(spans)[s]
    ensures forall s :: s in kept + [span] ==> s in spans || s == span
  {
    assert spans[..|spans|] == spans;
    TotalOfConcat(kept, [span]);
    TotalOfOne(span);
    OneMoreSpan(kept, span);
  }

  lemma LogGrows(log: seq<Write>, before: seq<Span>, after: seq<Span>, start: nat, end: nat)
    requires forall a :: InUntagged(before, a) <==> Recorded(log, a)
    requires forall a :: InUntagged(after, a) <==> InUntagged(before, a) || start <= a < end
    ensures forall a :: InUntagged(after, a) <==> Recorded(log + [Write(start, end)], a)
  {
    hide InUntagged;
    var longer := log + [Write(start, end)];
    forall a ensures Recorded(longer, a) <==> Recorded(log, a) || start <= a < end {
      if start <= a < end {
        assert Write(start, end) in longer;
      }
      if w :| w in log && w.start <= a < w.end {
        assert w in longer;
      }
    }
  }
}
