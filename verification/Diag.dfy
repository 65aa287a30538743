/** The diagnostic sink: nested ownership scopes and the removal of duplicates (src/diag.rs:147-412). */
module Diag {
  import opened Options

  datatype Span = Span(lo: nat, hi: nat)

  datatype Severity = Error | Warning

  datatype Diagnostic = Diagnostic(
    span: Span,
    editorSpan: Option<Span>,
    severity: Severity,
    name: Option<nat>,
    kind: nat,
    msg: string,
    identity: Option<nat>,
    file: nat)

  /** What a phase does with the sink; a scope runs a nested operation. */
  datatype Op = Report(d: Diagnostic) | SetFile(index: nat) | Scoped(ranges: seq<Span>, body: seq<Op>)

  datatype SinkState = SinkState(diags: seq<Diagnostic>, file: nat, ranges: Option<seq<Span>>)

  // ---------------------------------------------------------------- ownership

  predicate Contains(range: Span, span: Span) { range.lo <= span.lo && span.hi <= range.hi }

  predicate Covers(ranges: seq<Span>, span: Span) { exists range <- ranges :: Contains(range, span) }

  predicate Accepts(ranges: Option<seq<Span>>, span: Span) { ranges.None? || Covers(ranges.value, span) }

  function Max(a: nat, b: nat): nat { if a < b then b else a }

  function Min(a: nat, b: nat): nat { if a < b then a else b }

  function Meet(candidate: Span, range: Span): seq<Span>
  {
    var lo, hi := Max(candidate.lo, range.lo), Min(candidate.hi, range.hi);
    if lo <= hi then [Span(lo, hi)] else []
  }

  function MeetEach(candidate: Span, ranges: seq<Span>): seq<Span>
  {
    if ranges == [] then [] else MeetEach(candidate, ranges[..|ranges| - 1]) + Meet(candidate, ranges[|ranges| - 1])
  }

  function MeetAll(outer: seq<Span>, ranges: seq<Span>): seq<Span>
  {
    if outer == [] then [] else MeetAll(outer[..|outer| - 1], ranges) + MeetEach(outer[|outer| - 1], ranges)
  }

  function Narrowed(prior: Option<seq<Span>>, ranges: seq<Span>): seq<Span>
  {
    if prior.None? then ranges else MeetAll(prior.value, ranges)
  }

  function Step(s: SinkState, op: Op): SinkState
    decreases op
  {
    match op
    case Report(d) => if Accepts(s.ranges, d.span) then s.(diags := s.diags + [d.(file := s.file)]) else s
    case SetFile(index) => s.(file := index)
    case Scoped(ranges, body) => Performed(s.(ranges := Some(Narrowed(s.ranges, ranges))), body).(ranges := s.ranges)
  }

  function Performed(s: SinkState, ops: seq<Op>): SinkState
    decreases ops
  {
    if ops == [] then s else Performed(Step(s, ops[0]), ops[1..])
  }

  // ---------------------------------------------------------------- duplicates

  datatype Key =
    | Identified(file: nat, severity: Severity, name: Option<nat>, kind: nat, identity: nat)
    | Located(file: nat, span: Span, editorSpan: Option<Span>, severity: Severity, name: Option<nat>, kind: nat,
      msg: string)

  function KeyOf(d: Diagnostic): Key
  {
    if d.identity.Some? then Identified(d.file, d.severity, d.name, d.kind, d.identity.value)
    else Located(d.file, d.span, d.editorSpan, d.severity, d.name, d.kind, d.msg)
  }

  function Keys(diags: seq<Diagnostic>): set<Key> { set d <- diags :: KeyOf(d) }

  function Kept(diags: seq<Diagnostic>): seq<Diagnostic>
  {
    if diags == [] then []
    else
      var before, last := diags[..|diags| - 1], diags[|diags| - 1];
      Kept(before) + if KeyOf(last) in Keys(before) then [] else [last]
  }

  function Collapsed(diags: seq<Diagnostic>, start: nat): seq<Diagnostic>
  {
    var from := Min(start, |diags|);
    diags[..from] + Kept(diags[from..])
  }

  // ---------------------------------------------------------------- the sink

  class DiagSink {
    var diags: seq<Diagnostic>
    var currentFile: nat
    var authoritativeRanges: Option<seq<Span>>

    function State(): SinkState
      reads this
    {
      SinkState(diags, currentFile, authoritativeRanges)
    }

    constructor ()
      ensures State() == SinkState([], 0, None)
    {
      diags, currentFile, authoritativeRanges := [], 0, None;
    }

    method AddDiagnostic(d: Diagnostic)
      modifies this
      ensures State() == Step(old(State()), Report(d))
    {
      if !Accepts(authoritativeRanges, d.span) {
        return;
      }
      diags := diags + [d.(file := currentFile)];
    }

    /** A nested operation under narrower ownership; the prior ownership comes back. */
    method WithAuthoritativeRanges(ranges: seq<Span>, operation: seq<Op>)
      modifies this
      ensures State() == Step(old(State()), Scoped(ranges, operation))
      decreases operation, 1
    {
      var prior := authoritativeRanges;
      var selected := ranges;
      if prior.Some? {
        selected := MeetRanges(prior.value, ranges);
      }
      authoritativeRanges := Some(selected);
      Perform(operation);
      authoritativeRanges := prior;
    }

    method Perform(ops: seq<Op>)
      modifies this
      ensures State() == Performed(old(State()), ops)
      decreases ops, 0
    {
      for i := 0 to |ops|
        invariant Performed(old(State()), ops) == Performed(State(), ops[i..])
      {
        assert ops[i..][0] == ops[i] && ops[i..][1..] == ops[i + 1..];
        match ops[i] {
          case Report(d) => AddDiagnostic(d);
          case SetFile(index) => currentFile := index;
          case Scoped(ranges, body) => WithAuthoritativeRanges(ranges, body);
        }
      }
    }

    method CollapseDuplicatesFrom(start: nat)
      modifies this`diags
      ensures diags == Collapsed(old(diags), start)
    {
      var from := Min(start, |diags|);
      var tail := diags[from..];
      diags := diags[..from];
      var kept := KeepFirst(tail);
      diags := diags + kept;
    }
  }

  method MeetRanges(outer: seq<Span>, ranges: seq<Span>) returns (selected: seq<Span>)
    ensures selected == MeetAll(outer, ranges)
  {
    selected := [];
    for i := 0 to |outer|
      invariant selected == MeetAll(outer[..i], ranges)
    {
      ghost var before := selected;
      assert outer[..i + 1][..i] == outer[..i];
      for j := 0 to |ranges|
        invariant selected == before + MeetEach(outer[i], ranges[..j])
      {
        assert ranges[..j + 1][..j] == ranges[..j];
        var lo, hi := Max(outer[i].lo, ranges[j].lo), Min(outer[i].hi, ranges[j].hi);
        if lo <= hi {
          selected := selected + [Span(lo, hi)];
        }
      }
      assert ranges[..|ranges|] == ranges;
    }
    assert outer[..|outer|] == outer;
  }

  /** Keys seen, those with an identity apart from the others. */
  ghost predicate SeenKeys(seen: set<Key>, seenIdentities: set<Key>, all: set<Key>)
  {
    seen == (set key <- all | key.Located?) && seenIdentities == (set key <- all | key.Identified?)
  }

  lemma SeenOne(seen: set<Key>, seenIdentities: set<Key>, all: set<Key>, key: Key)
    requires SeenKeys(seen, seenIdentities, all)
    ensures if key.Identified?
      then (key in seenIdentities <==> key in all) && SeenKeys(seen, seenIdentities + {key}, all + {key})
            else (key in seen <==> key in all) && SeenKeys(seen + {key}, seenIdentities, all + {key})
  {
  }

  /** Two sets of keys seen: diagnostics with an identity have keys of their own. */
  method KeepFirst(tail: seq<Diagnostic>) returns (kept: seq<Diagnostic>)
    ensures kept == Kept(tail)
  {
    kept := [];
    var seen: set<Key>, seenIdentities: set<Key> := {}, {};
    for i := 0 to |tail|
      invariant kept == Kept(tail[..i]) && SeenKeys(seen, seenIdentities, Keys(tail[..i]))
    {
      var d := tail[i];
      assert tail[..i + 1][..i] == tail[..i] && tail[..i + 1] == tail[..i] + [d];
      KeysPush(tail[..i], d);
      SeenOne(seen, seenIdentities, Keys(tail[..i]), KeyOf(d));
      if d.identity.Some? {
        var key := Identified(d.file, d.severity, d.name, d.kind, d.identity.value);
        if key !in seenIdentities {
          kept := kept + [d];
        }
        seenIdentities := seenIdentities + {key};
      } else {
        var key := Located(d.file, d.span, d.editorSpan, d.severity, d.name, d.kind, d.msg);
        if key !in seen {
          kept := kept + [d];
        }
        seen := seen + {key};
      }
    }
    assert tail[..|tail|] == tail;
  }

  lemma KeysPush(diags: seq<Diagnostic>, d: Diagnostic)
    ensures Keys(diags + [d]) == Keys(diags) + {KeyOf(d)}
  {
    assert forall x :: x in diags + [d] <==> x in diags || x == d;
  }

  // ---------------------------------------------------------------- scopes intersect

  predicate WellFormed(span: Span) { span.lo <= span.hi }

  lemma {:induction false} MeetEachCovers(candidate: Span, ranges: seq<Span>, span: Span)
    requires WellFormed(span)
    ensures Covers(MeetEach(candidate, ranges), span) <==> Contains(candidate, span) && Covers(ranges, span)
  {
    if ranges != [] {
      var rest, last := ranges[..|ranges| - 1], ranges[|ranges| - 1];
      MeetEachCovers(candidate, rest, span);
      assert forall r :: r in ranges <==> r in rest || r == last;
      assert forall r :: r in MeetEach(candidate, ranges) <==>
        r in MeetEach(candidate, rest) || r in Meet(candidate, last);
      assert Covers(Meet(candidate, last), span) <==> Contains(candidate, span) && Contains(last, span) by {
        if Contains(candidate, span) && Contains(last, span) {
          assert Meet(candidate, last)[0] in Meet(candidate, last);
        }
      }
    }
  }

  lemma {:induction false} MeetAllCovers(outer: seq<Span>, ranges: seq<Span>, span: Span)
    requires WellFormed(span)
    ensures Covers(MeetAll(outer, ranges), span) <==> Covers(outer, span) && Covers(ranges, span)
  {
    if outer != [] {
      var rest, last := outer[..|outer| - 1], outer[|outer| - 1];
      MeetAllCovers(rest, ranges, span);
      MeetEachCovers(last, ranges, span);
      assert forall r :: r in outer <==> r in rest || r == last;
      assert forall r :: r in MeetAll(outer, ranges) <==> r in MeetAll(rest, ranges) || r in MeetEach(last, ranges);
    }
  }

  lemma NarrowedAccepts(prior: Option<seq<Span>>, ranges: seq<Span>, span: Span)
    requires WellFormed(span)
    ensures Accepts(Some(Narrowed(prior, ranges)), span) <==> Accepts(prior, span) && Covers(ranges, span)
  {
    if prior.Some? {
      MeetAllCovers(prior.value, ranges, span);
    }
  }

  /** The ownership in force inside nested scopes, outermost first. */
  function InForce(scopes: seq<seq<Span>>): Option<seq<Span>>
  {
    if scopes == [] then None else Some(Narrowed(InForce(scopes[..|scopes| - 1]), scopes[|scopes| - 1]))
  }

  ghost predicate InEvery(scopes: seq<seq<Span>>, span: Span) { forall scope <- scopes :: Covers(scope, span) }

  lemma {:induction false} WellFormedInEvery(scopes: seq<seq<Span>>, span: Span)
    requires WellFormed(span)
    ensures Accepts(InForce(scopes), span) <==> InEvery(scopes, span)
  {
    if scopes != [] {
      var rest, last := scopes[..|scopes| - 1], scopes[|scopes| - 1];
      WellFormedInEvery(rest, span);
      NarrowedAccepts(InForce(rest), last, span);
      assert forall s :: s in scopes <==> s in rest || s == last;
    }
  }

  /** A span is owned by nested scopes exactly when each of them has a range around it, whatever the scopes
      are, if and only if it does not end before it starts. */
  lemma OwnershipIntersects(span: Span)
    ensures WellFormed(span) <==> forall scopes :: Accepts(InForce(scopes), span) <==> InEvery(scopes, span)
  {
    if WellFormed(span) {
      forall scopes ensures Accepts(InForce(scopes), span) <==> InEvery(scopes, span) {
        WellFormedInEvery(scopes, span);
      }
    } else {
      BackwardSpanLost(span);
    }
  }

  /** A span that ends before it starts is around two points, and their scopes have nothing in common. */
  lemma BackwardSpanLost(span: Span)
    requires !WellFormed(span)
    ensures exists scopes :: InEvery(scopes, span) && !Accepts(InForce(scopes), span)
  {
    var first, second := [Span(span.hi, span.hi)], [Span(span.lo, span.lo)];
    var scopes := [first, second];
    assert Contains(first[0], span) && Contains(second[0], span);
    assert first[0] in first && second[0] in second;
    assert forall scope :: scope in scopes <==> scope == first || scope == second;
    assert InEvery(scopes, span);
    assert scopes[..1] == [first] && scopes[..1][..0] == [];
    assert InForce([first]) == Some(first);
    assert first[..0] == [] && second[..0] == [];
    assert MeetEach(first[0], second) == [] + Meet(first[0], second[0]);
    assert MeetAll(first, second) == [] + MeetEach(first[0], second);
    assert InForce(scopes) == Some([]);
  }

  // ---------------------------------------------------------------- whole runs

  ghost predicate AllWellFormed(ops: seq<Op>)
    decreases ops
  {
    forall op <- ops ::
      match op
      case Report(d) => WellFormed(d.span)
      case SetFile(_) => true
      case Scoped(_, body) => AllWellFormed(body)
  }

  /** What a run should record under `scopes`, and the file it ends on: each report for which every scope
      around it has a range. */
  ghost function Due(op: Op, scopes: seq<seq<Span>>, file: nat): (seq<Diagnostic>, nat)
    decreases op
  {
    match op
    case Report(d) => (if InEvery(scopes, d.span) then [d.(file := file)] else [], file)
    case SetFile(index) => ([], index)
    case Scoped(ranges, body) => AllDue(body, scopes + [ranges], file)
  }

  ghost function AllDue(ops: seq<Op>, scopes: seq<seq<Span>>, file: nat): (seq<Diagnostic>, nat)
    decreases ops
  {
    if ops == [] then ([], file)
    else
      var (first, next) := Due(ops[0], scopes, file);
      var (rest, end) := AllDue(ops[1..], scopes, next);
      (first + rest, end)
  }

  lemma {:induction false} StepRecords(s: SinkState, op: Op, scopes: seq<seq<Span>>)
    requires AllWellFormed([op]) && s.ranges == InForce(scopes)
    ensures var (more, file) := Due(op, scopes, s.file); Step(s, op) == SinkState(s.diags + more, file, s.ranges)
    decreases op, 1
  {
    assert op in [op];
    match op
    case Report(d) => WellFormedInEvery(scopes, d.span);
    case SetFile(_) => assert s.diags + [] == s.diags;
    case Scoped(ranges, body) =>
      assert (scopes + [ranges])[..|scopes|] == scopes;
      RunRecords(s.(ranges := Some(Narrowed(s.ranges, ranges))), body, scopes + [ranges]);
  }

  /** A run records exactly what is due and gives back the ownership it found. */
  lemma {:induction false} RunRecords(s: SinkState, ops: seq<Op>, scopes: seq<seq<Span>>)
    requires AllWellFormed(ops) && s.ranges == InForce(scopes)
    ensures var (more, file) := AllDue(ops, scopes, s.file);
      Performed(s, ops) == SinkState(s.diags + more, file, s.ranges)
    decreases ops, 0
  {
    if ops == [] {
      assert s.diags + [] == s.diags;
    } else {
      assert ops[0] in ops && forall op <- ops[1..] :: op in ops;
      StepRecords(s, ops[0], scopes);
      var (first, next) := Due(ops[0], scopes, s.file);
      RunRecords(SinkState(s.diags + first, next, s.ranges), ops[1..], scopes);
      var (rest, _) := AllDue(ops[1..], scopes, next);
      assert s.diags + first + rest == s.diags + (first + rest);
    }
  }

  /** Whatever the spans, a scope restores the ownership and never touches what was recorded before. */
  lemma {:induction false} RunRestores(s: SinkState, ops: seq<Op>)
    ensures Performed(s, ops).ranges == s.ranges && s.diags <= Performed(s, ops).diags
    decreases ops
  {
    if ops != [] {
      if ops[0].Scoped? {
        RunRestores(s.(ranges := Some(Narrowed(s.ranges, ops[0].ranges))), ops[0].body);
      }
      RunRestores(Step(s, ops[0]), ops[1..]);
    }
  }

  // ---------------------------------------------------------------- what collapsing keeps

  /** `a` and `b` say the same: of the same declaration if both name one, and otherwise at the same place in
      the same words. */
  predicate Duplicates(a: Diagnostic, b: Diagnostic)
  {
    && a.file == b.file && a.severity == b.severity && a.name == b.name && a.kind == b.kind
    && a.identity == b.identity
    && (a.identity.None? ==> a.span == b.span && a.editorSpan == b.editorSpan && a.msg == b.msg)
  }

  lemma KeysTellDuplicates(a: Diagnostic, b: Diagnostic)
    ensures KeyOf(a) == KeyOf(b) <==> Duplicates(a, b)
  {
  }

  ghost predicate FirstOfKey(diags: seq<Diagnostic>, i: nat)
  {
    i < |diags| && forall j :: 0 <= j < i ==> !Duplicates(diags[j], diags[i])
  }

  /** The positions kept. */
  ghost function Positions(diags: seq<Diagnostic>): seq<nat>
  {
    if diags == [] then []
    else
      var before, last := diags[..|diags| - 1], diags[|diags| - 1];
      Positions(before) + if KeyOf(last) in Keys(before) then [] else [|diags| - 1]
  }

  /** The first of each lot of duplicates is kept, in order, and nothing else. */
  lemma {:induction false} KeptIsFirst(diags: seq<Diagnostic>)
    ensures var at := Positions(diags);
      && |Kept(diags)| == |at|
      && (forall k :: 0 <= k < |at| ==> FirstOfKey(diags, at[k]) && Kept(diags)[k] == diags[at[k]])
      && (forall i: nat :: FirstOfKey(diags, i) ==> i in at)
      && (forall j, k :: 0 <= j < k < |at| ==> at[j] < at[k])
  {
    if diags != [] {
      var n := |diags| - 1;
      var before := diags[..n];
      KeptIsFirst(before);
      var was, at := Positions(before), Positions(diags);
      assert KeyOf(diags[n]) in Keys(before) <==> exists j :: 0 <= j < n && KeyOf(before[j]) == KeyOf(diags[n]);
      forall j | 0 <= j < n ensures KeyOf(diags[j]) == KeyOf(diags[n]) <==> Duplicates(diags[j], diags[n]) {
        KeysTellDuplicates(diags[j], diags[n]);
      }
      assert FirstOfKey(diags, n) <==> KeyOf(diags[n]) !in Keys(before);
      forall i: nat | i < n ensures FirstOfKey(diags, i) <==> FirstOfKey(before, i) {
      }
      forall i: nat | FirstOfKey(diags, i) ensures i in at {
        if i < n {
          assert FirstOfKey(before, i);
          assert i in was;
        }
      }
    }
  }

  ghost predicate DistinctKeys(diags: seq<Diagnostic>)
  {
    forall i, j :: 0 <= i < j < |diags| ==> KeyOf(diags[i]) != KeyOf(diags[j])
  }

  lemma {:induction false} KeptKeys(diags: seq<Diagnostic>)
    ensures Keys(Kept(diags)) == Keys(diags)
  {
    if diags != [] {
      var before, last := diags[..|diags| - 1], diags[|diags| - 1];
      KeptKeys(before);
      assert diags == before + [last];
      KeysPush(before, last);
      KeysPush(Kept(before), last);
    }
  }

  lemma DistinctPush(diags: seq<Diagnostic>, d: Diagnostic)
    requires DistinctKeys(diags) && KeyOf(d) !in Keys(diags)
    ensures DistinctKeys(diags + [d])
  {
    assert forall i :: 0 <= i < |diags| ==> diags[i] in diags;
  }

  lemma {:induction false} KeptDistinct(diags: seq<Diagnostic>)
    ensures DistinctKeys(Kept(diags))
  {
    if diags != [] {
      var before, last := diags[..|diags| - 1], diags[|diags| - 1];
      KeptDistinct(before);
      KeptKeys(before);
      if KeyOf(last) !in Keys(before) {
        DistinctPush(Kept(before), last);
      }
    }
  }

  lemma {:induction false} DistinctKept(diags: seq<Diagnostic>)
    requires DistinctKeys(diags)
    ensures Kept(diags) == diags
  {
    if diags != [] {
      var before, last := diags[..|diags| - 1], diags[|diags| - 1];
      DistinctKept(before);
      assert diags == before + [last];
      assert forall d <- before :: KeyOf(d) != KeyOf(last);
    }
  }

  ghost predicate NoDuplicates(diags: seq<Diagnostic>)
  {
    forall i, j :: 0 <= i < j < |diags| ==> !Duplicates(diags[i], diags[j])
  }

  /** Each of `diags` is kept, or a duplicate of it is. */
  ghost predicate Represented(diags: seq<Diagnostic>, kept: seq<Diagnostic>)
  {
    (forall d <- diags :: exists k <- kept :: Duplicates(k, d)) && forall k <- kept :: k in diags
  }

  lemma {:induction false} KeptAmong(diags: seq<Diagnostic>)
    ensures forall k <- Kept(diags) :: k in diags
  {
    if diags != [] {
      KeptAmong(diags[..|diags| - 1]);
    }
  }

  lemma KeptRepresents(diags: seq<Diagnostic>)
    ensures Represented(diags, Kept(diags)) && NoDuplicates(Kept(diags))
  {
    KeptKeys(diags);
    KeptDistinct(diags);
    KeptAmong(diags);
    forall a, b ensures KeyOf(a) == KeyOf(b) <==> Duplicates(a, b) {
      KeysTellDuplicates(a, b);
    }
    forall d | d in diags ensures exists k <- Kept(diags) :: Duplicates(k, d) {
      assert KeyOf(d) in Keys(Kept(diags));
    }
  }

  /** Collapsing from `start` leaves what is before it alone, keeps one of each lot of later duplicates, and
      collapsing again from there changes nothing. */
  lemma CollapsedOnce(diags: seq<Diagnostic>, start: nat)
    ensures var r := Collapsed(diags, start);
      if start >= |diags| then r == diags
      else
        && start <= |r| && r[..start] == diags[..start]
        && Represented(diags[start..], r[start..]) && NoDuplicates(r[start..])
        && Collapsed(r, start) == r
  {
    var from, r := Min(start, |diags|), Collapsed(diags, start);
    var kept := Kept(diags[from..]);
    KeptRepresents(diags[from..]);
    KeptDistinct(diags[from..]);
    DistinctKept(kept);
    assert start < |diags| ==> r[..from] == diags[..from] && r[from..] == kept;
    assert start >= |diags| ==> diags[from..] == [] && kept == [] && r == diags;
    assert start < |diags| ==> Min(start, |r|) == from;
  }
}
